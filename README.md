# Refresh-token lifecycle of SpringSecurityApplication, in Dafny

This project models the token core of a Spring Boot service that logs users in and keeps them
logged in with refresh tokens:

- `RefreshTokenService` keeps a table of refresh-token records (token string, owning user, expiry
  instant). It creates a record for a user, looks records up by token string, and checks expiry. A
  record found expired is deleted before the check fails.
- `UserController` offers two endpoints. Login authenticates, creates a refresh record and returns
  (access token, refresh token). Refresh looks the refresh token up, checks its expiry and returns a
  new access token for the record's owner, paired with the same refresh string: tokens are not rotated.
- `UserInfoDetails` is the Spring Security view of a user. Its comma-separated `roles` string becomes
  an ordered list of granted authorities through Java's `String.split(",")`.

Files and modules:

| file | module | contents |
|---|---|---|
| `wrappers.dfy` | `Wrappers` | `Option` (Java's `Optional`) and `Result` (a value, or the message of the exception thrown) |
| `model.dfy` | `Model` | the entities `UserInfo` and `RefreshToken`, and the request and response bodies |
| `java_strings.dfy` | `JavaStrings` | `String.split` with a one-character separator, `String.join`, `Character.isWhitespace` and `StringUtils.hasText`, with their lemmas |
| `user_details.dfy` | `UserDetails` | `UserInfoDetails` and the building of its authorities |
| `refresh_tokens.dfy` | `RefreshTokens` | the service's state as a value `Service` with the operations as functions on it, the lifecycle lemmas, and the class `RefreshTokenService` whose methods update the repositories in place |
| `user_controller.dfy` | `Controllers` | `Login` and `Refresh` as functions, lemmas about their composition, and the class `UserController` |

How it is modelled:

- The two repositories are maps held in fields of `RefreshTokenService`. `tokens` maps a token string
  to its record and `users` maps a username to its user. `Valid()` says each entry sits under its own
  key, which is what `findByToken` and `findByUsername` search on.
- Every state-changing method is specified by a function of the old state. For example
  `CreateRefreshToken` ensures that `Step(r, State()) == old(State()).CreateRefreshToken(...)`. The
  properties themselves are proved about those functions. The frames are `this`tokens`: neither the
  user store nor the lifetime can change.
- The clock (`Instant.now()`) is an explicit `now: int` parameter, in milliseconds. The configured
  lifetime is an integer number of milliseconds.
- `UUID.randomUUID()` is a `newToken` parameter. That it is not already a key of the store is a
  precondition of creation and login. This is an assumption about random UUIDs, not something the
  code checks.
- The authentication manager and the JWT service are function values fixed when the controller is
  built: `authenticationManager(username, password)` returns an `Authentication` (granted or not) or
  an `AuthenticationException`, and `jwtService(username)` is `generateToken`.
- Each exception is an `Err` that carries the exception's message.

Edge cases, as the code handles them:

- A login for a user missing from the user store ends in `Optional.get`'s `NoSuchElementException`
  ("No value present"). It is not a dedicated user-not-found error.
- Login failures are not collapsed into one condition. An exception from authentication propagates
  with its own message. Authentication that is not granted fails with "invalid user request..!!".
- An expired refresh fails with the token string followed by " Refresh token is expired. Please make
  a new login..!". An unknown token fails with "Refresh Token is not in DB..!!".
- Nothing in the code or the schema keeps `roles` non-empty; the column is only non-null. An empty
  roles string splits into `[""]`, and Spring's `SimpleGrantedAuthority` refuses
  that piece with "A granted authority textual representation is required". So building
  `UserInfoDetails` can fail, and `NewUserInfoDetails` returns a `Result`.
- Expiry is checked with `compareTo(now) < 0`. A record whose expiry equals `now` is still live.

## Model

| member | source | states |
|---|---|---|
| `JavaStrings.Split` | src/main/java/com/example/SpringSecurityApplication/service/UserInfoDetails.java:24 | `roles.split(",")`: no piece contains the separator. When the separator occurs, the result is a prefix of all segments, only empty segments are dropped, and every trailing empty segment is dropped (the last piece is never empty). A string without the separator comes back whole as the only piece. |
| `JavaStrings.Segments` | src/main/java/com/example/SpringSecurityApplication/service/UserInfoDetails.java:24 | The segments between separators that split collects: there is at least one, and none contains the separator. |
| `JavaStrings.JoinSegments` | src/main/java/com/example/SpringSecurityApplication/service/UserInfoDetails.java:24 | Joining the segments with the separator gives back the original string. |
| `JavaStrings.SegmentsCount` | src/main/java/com/example/SpringSecurityApplication/service/UserInfoDetails.java:24 | There is exactly one more segment than there are separators. |
| `JavaStrings.LastSegmentEmpty` | src/main/java/com/example/SpringSecurityApplication/service/UserInfoDetails.java:24 | The last segment is empty if and only if the string is empty or ends with the separator. |
| `JavaStrings.SegmentsUnique` | src/main/java/com/example/SpringSecurityApplication/service/UserInfoDetails.java:24 | Any non-empty list of separator-free parts is the segment list of its own join, so the segments are the only such decomposition. |
| `JavaStrings.SplitWithoutTrailingSeparator` | src/main/java/com/example/SpringSecurityApplication/service/UserInfoDetails.java:24 | For a string that does not end with the separator, split drops nothing, joins back to the string, and gives one more piece than there are separators. |
| `JavaStrings.SplitOfJoin` | src/main/java/com/example/SpringSecurityApplication/service/UserInfoDetails.java:24 | Split inverts join for separator-free parts whose last part is not empty. |
| `JavaStrings.SplitDropsTrailingSeparator` | src/main/java/com/example/SpringSecurityApplication/service/UserInfoDetails.java:24 | A trailing separator after separator-free parts whose last part is not empty gives no extra empty piece: split returns exactly the parts. |
| `JavaStrings.IsWhitespace` | src/main/java/com/example/SpringSecurityApplication/service/UserInfoDetails.java:25 | `Character.isWhitespace`, which `StringUtils.hasText` applies inside `SimpleGrantedAuthority`'s constructor: space, tab, newline and carriage return are whitespace; the non-breaking spaces U+00A0, U+2007 and U+202F and the comma are not. |
| `JavaStrings.HasText` | src/main/java/com/example/SpringSecurityApplication/service/UserInfoDetails.java:25 | `StringUtils.hasText`: the empty string has no text, and a string has no text exactly when every character is whitespace. |
| `JavaStrings.SplitEmpty` | src/main/java/com/example/SpringSecurityApplication/service/UserInfoDetails.java:24 | Split gives no piece at all exactly when the string is non-empty and made only of separators. |
| `UserDetails.NewAuthority` | src/main/java/com/example/SpringSecurityApplication/service/UserInfoDetails.java:25 | `new SimpleGrantedAuthority(role)` succeeds if and only if the role has text, and then it keeps the role. Otherwise it fails with the constructor's message. |
| `UserDetails.NewAuthorities` | src/main/java/com/example/SpringSecurityApplication/service/UserInfoDetails.java:24-26 | The map/collect stream succeeds if and only if every role has text. It then yields one authority per role, in order. |
| `UserDetails.NewUserInfoDetails` | src/main/java/com/example/SpringSecurityApplication/service/UserInfoDetails.java:21-43 | Construction succeeds if and only if every piece of the split roles has text. Then `GetUsername()` is the user's username, `GetPassword()` is the stored password unchanged, and `GetAuthorities()` lists the split pieces in order. |
| `UserDetails.AuthoritiesHaveNoComma` | src/main/java/com/example/SpringSecurityApplication/service/UserInfoDetails.java:24-33 | No authority contains a comma. |
| `UserDetails.AuthoritiesRoundTrip` | src/main/java/com/example/SpringSecurityApplication/service/UserInfoDetails.java:24-33 | If roles does not end with a comma, joining the authorities with "," gives roles back exactly, and there is one more authority than roles has commas. |
| `UserDetails.AuthoritiesDetermined` | src/main/java/com/example/SpringSecurityApplication/service/UserInfoDetails.java:24-33 | If roles is the join of comma-free parts that have text, construction succeeds and the authorities are exactly those parts. |
| `UserDetails.TrailingCommaIgnored` | src/main/java/com/example/SpringSecurityApplication/service/UserInfoDetails.java:24-26 | A roles string that ends with one comma, such as "USER,ADMIN,", gives a user whose authorities are exactly the pieces before that comma. |
| `UserDetails.EmptyRolesRefused` | src/main/java/com/example/SpringSecurityApplication/service/UserInfoDetails.java:24-25 | An empty roles string makes construction fail with `SimpleGrantedAuthority`'s message. |
| `UserDetails.CommasOnlyGiveNoAuthorities` | src/main/java/com/example/SpringSecurityApplication/service/UserInfoDetails.java:24-26 | Roles made only of commas give a user with no authorities at all. |
| `UserDetails.InnerEmptyRoleRefused` | src/main/java/com/example/SpringSecurityApplication/service/UserInfoDetails.java:24-25 | A doubled comma leaves an empty piece inside the list, and construction fails. |
| `RefreshTokens.Service.FindByUsername` | src/main/java/com/example/SpringSecurityApplication/service/RefreshTokenService.java:29 | The user lookup finds a user if and only if the username is a key of the store; the user found is the one stored under that username, and it has that username. |
| `RefreshTokens.Service.FindByToken` | src/main/java/com/example/SpringSecurityApplication/service/RefreshTokenService.java:36-38 | The lookup finds a record if and only if the token string is in the store. The record found is a stored one, and its token is the string asked for. |
| `RefreshTokens.Service.CreateRefreshToken` | src/main/java/com/example/SpringSecurityApplication/service/RefreshTokenService.java:27-34 | Creation fails ("No value present", store unchanged) if and only if the user is unknown. On success the record holds the new token, the stored user (named by the username) and expiry now + lifetime, which is after now when the lifetime is positive. The store afterwards is the old store plus exactly that record. |
| `RefreshTokens.Service.VerifyExpiration` | src/main/java/com/example/SpringSecurityApplication/service/RefreshTokenService.java:40-46 | The check succeeds if and only if `now <= expiry`, and then returns the same record with the store unchanged. Otherwise it fails with token + the expiry message, with that record's key removed and nothing else changed. |
| `RefreshTokens.CreatedTokenIsFound` | src/main/java/com/example/SpringSecurityApplication/service/RefreshTokenService.java:27-38 | After a successful creation, `findByToken` on the new string returns the created record. Every other lookup is unchanged. |
| `RefreshTokens.FailedCreationChangesNothing` | src/main/java/com/example/SpringSecurityApplication/service/RefreshTokenService.java:29 | Creation for an unknown user fails and leaves every lookup as it was. |
| `RefreshTokens.ExpiredRecordIsGone` | src/main/java/com/example/SpringSecurityApplication/service/RefreshTokenService.java:40-43 | Checking an expired stored record fails, after which `findByToken` on its string finds nothing. Every other record is untouched. |
| `RefreshTokens.LiveRecordStays` | src/main/java/com/example/SpringSecurityApplication/service/RefreshTokenService.java:41-45 | Checking a live stored record returns it, and it stays retrievable. |
| `RefreshTokens.RefreshTokenService.constructor` | src/main/java/com/example/SpringSecurityApplication/service/RefreshTokenService.java:18-25 | The service starts from the given repositories and lifetime. |
| `RefreshTokens.RefreshTokenService.Save` | src/main/java/com/example/SpringSecurityApplication/service/RefreshTokenService.java:33 | `save` stores the record under its token and returns it. |
| `RefreshTokens.RefreshTokenService.Delete` | src/main/java/com/example/SpringSecurityApplication/service/RefreshTokenService.java:42 | `delete` removes the record's key from the token store and nothing else. |
| `RefreshTokens.RefreshTokenService.CreateRefreshToken` | src/main/java/com/example/SpringSecurityApplication/service/RefreshTokenService.java:27-34 | The result and the new token store are those of `Service.CreateRefreshToken` on the old state. The store stays valid. |
| `RefreshTokens.RefreshTokenService.FindByToken` | src/main/java/com/example/SpringSecurityApplication/service/RefreshTokenService.java:36-38 | It returns what `Service.FindByToken` gives, present if and only if the string is stored. Nothing is modified. |
| `RefreshTokens.RefreshTokenService.VerifyExpiration` | src/main/java/com/example/SpringSecurityApplication/service/RefreshTokenService.java:40-46 | The result and the new token store are those of `Service.VerifyExpiration` on the old state. |
| `Controllers.Login` | src/main/java/com/example/SpringSecurityApplication/controllers/UserController.java:53-65 | Login succeeds if and only if authentication is granted and the user exists. It then returns (generateToken(username), the new token string) and inserts exactly one record, owned by that user. An authentication exception propagates its message, an ungranted authentication fails with "invalid user request..!!", and an unknown user fails with "No value present". Every failure leaves the store unchanged. |
| `Controllers.Refresh` | src/main/java/com/example/SpringSecurityApplication/controllers/UserController.java:70-81 | An unknown string fails with "Refresh Token is not in DB..!!" and changes nothing. An expired record is deleted and the call fails with its expiry message, without issuing a token. A live record yields (generateToken(owner's username), the request's refresh string), with the store unchanged. Refresh never adds or alters a record. |
| `Controllers.LoginThenRefresh` | src/main/java/com/example/SpringSecurityApplication/controllers/UserController.java:53-81 | Up to and including its expiry, the refresh token from a login can be traded for an access token generated for the user who logged in, paired with the same refresh string. The store is left as the login left it. |
| `Controllers.FailedLoginCreatesNothing` | src/main/java/com/example/SpringSecurityApplication/controllers/UserController.java:54-64 | A login whose authentication is not granted, or throws, fails and creates no record. |
| `Controllers.RefreshTwice` | src/main/java/com/example/SpringSecurityApplication/controllers/UserController.java:70-81 | Two refreshes with a live token both succeed with the same unrotated refresh string and an access token generated for the same owner, and the store stays unchanged. |
| `Controllers.ExpiredRefreshIsFinal` | src/main/java/com/example/SpringSecurityApplication/controllers/UserController.java:70-81 | A refresh that finds its record expired deletes only that record. Every later refresh with that string fails as not in the store. |
| `Controllers.NoResurrection` | src/main/java/com/example/SpringSecurityApplication/controllers/UserController.java:53-81 | A token string absent from the store stays absent after a login (other than the login's own new string) and after any refresh. |
| `Controllers.UserController.constructor` | src/main/java/com/example/SpringSecurityApplication/controllers/UserController.java:35-40 | The controller keeps the collaborators it is given. |
| `Controllers.UserController.AuthenticateAndGetToken` | src/main/java/com/example/SpringSecurityApplication/controllers/UserController.java:53-65 | The result and the new token store are those of `Login` on the old state. |
| `Controllers.UserController.RefreshToken` | src/main/java/com/example/SpringSecurityApplication/controllers/UserController.java:70-81 | The result and the new token store are those of `Refresh` on the old state. |

## Left out

- Signing and verifying access tokens (`JwtService`) is not part of this model. `generateToken` is a
  function of the username alone. Two access tokens issued for one user at different instants are
  therefore equal in the model, while the real ones differ in their issue time.
- `AuthenticationManager`, password encoding and `UserInfoService` are not part of this model. Their
  code is not at hand, so authentication is an oracle that the controller is given.
- `LoggingAspect`, `AdminController`, `UserController.hello` and `UserController.addNewUser` are left
  out. They are logging, constant strings and HTTP status wrapping, and authorization there is done
  by Spring annotations.
- The clock and `UUID.randomUUID()` are parameters. It is assumed, not proved, that a new UUID is not
  already in use.
- Instants are whole milliseconds here. `Instant.now()` can carry a sub-millisecond fraction, which
  `plusMillis` keeps in the expiry and `compareTo` takes into account, so "expiry equals `now`" means
  the same millisecond in the model and the same instant in Java. `Duration.toMillis` truncates the
  configured lifetime to whole milliseconds; the lifetime here is already that integer.
- Overflow is not modelled. `Instant.plusMillis` throws outside the range of `Instant`, and
  `Duration.toMillis` throws on overflow. Integers here are unbounded.
- `null` values are not modelled: neither a null `roles` nor a refresh record whose `userInfo` is
  null. In the source, a null owner would make the refresh pipeline end empty, and the refresh fail
  as "not in DB".
- `RefreshToken.java` is not part of this model. Its fields are taken from the builder calls, and a
  possible database id is left out. So `delete` removes the record stored under the record's token
  string; JPA deletes by id.
- Both stores are maps, so a username or a token string finds at most one record. This relies on the
  unique name column (`UserInfo.java`:20) and on token strings being unique. The case where a lookup
  meets duplicate rows and throws is not modelled. Non-null columns are not modelled.
- The race between concurrent refreshes of one token (both find it before either deletes it) is left
  out. The model is sequential.
- Exception classes are reduced to their messages.
- `Character.isWhitespace` and `StringUtils.hasText` are library code that `SimpleGrantedAuthority`'s
  constructor runs; their source is not part of this model, and their definitions follow the Java and
  Spring documentation.
- Java `char` is a UTF-16 code unit, while Dafny's `char` is a Unicode scalar value.
  `Character.isWhitespace` is modelled on code points.
