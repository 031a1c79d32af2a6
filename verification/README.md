# Sfera Net bearer-token session, in Dafny

This project models the bearer-token session handling of the WordPress
plugin that connects a site to the Sfera Net travel-management backend:
the class `Sferanet_Wordpress_Integration_Admin` keeps a JWT-shaped token in
two slots (the persisted option `'sferanet_token'` and the in-memory
`$token` field), obtains it by logging in to `/login_check`, judges it fresh
when its `exp` claim lies more than five minutes ahead, and logs in again
only when it is not fresh.

Modules, following the pieces of that class:

- `Wrappers`: `Option` (PHP `null`) and `Result` (a thrown exception).
- `Explode`: PHP `explode` on one separator character, and its inverse `Join`.
- `TokenStore`: the two token slots, `set_token` and `get_token`.
- `TokenValidator`: `is_token_valid`, the strict look-ahead freshness check
  on the second `.`-segment of the token (compact serialisation of
  RFC 7519 section 3 / RFC 7515 section 7.1, `exp` of RFC 7519 section 4.1.4).
- `Authenticator`: `login_sferanet` over an abstract login response, and the
  login step of the constructor.
- `SessionGuard`: `validate_token`, which counts the login calls it makes.

The model is functional: every operation takes a `TokenState` value and
returns the next one. The current time `now` is a parameter, and so is the
backend's answer to the login POST. Base64 decoding, JSON decoding and
reading `exp` form one opaque function parameter `claimsExp` that yields
`None` when there is no usable `exp`. Every property about the validator
therefore holds for every possible decoder.

The model follows what the code does, including where that differs from what a JWT client is expected to do:

- The token is split with `list($header, $payload, $signature) = explode('.', $token)`.
  The claims segment is therefore the second segment whenever there are at
  least two. Extra segments are ignored rather than rejected, and with a single
  segment `$payload` is null. A compact JWT has exactly three segments, but
  the code never checks the count.
- The code decodes the claims with `base64_decode`, which uses the standard
  alphabet of RFC 4648 section 4. It does not use the base64url alphabet of
  section 5. Decoding is abstract here, so this only matters to whoever
  supplies `claimsExp`.
- A malformed token (no second segment, claims that are not an object, or no
  `exp`) is not a fatal error in the code. PHP emits warnings and compares
  `null > now + 300`, which is false. The model treats these warnings as
  "no usable `exp`", so the token is invalid (it fails closed).
- `set_token` returns `$this` for chaining. In the model it returns the new state.
- The file ends with a stray closing brace after the class (line 188), so
  PHP as written would not parse it. The model describes the class body as
  evidently intended.

## Model

| member | source | states |
|---|---|---|
| Explode.Split | admin/class-sferanet-wordpress-integration-admin.php:170 | `explode('.')` always yields at least one segment, no segment contains the separator, and joining the segments gives back the token |
| Explode.SplitJoin | admin/class-sferanet-wordpress-integration-admin.php:170 | splitting a join of separator-free segments gives back exactly those segments, so the segment list is uniquely determined by the token |
| Explode.SplitManyIffSep | admin/class-sferanet-wordpress-integration-admin.php:170 | a token has a second segment exactly when it contains a dot |
| TokenStore.SetToken | admin/class-sferanet-wordpress-integration-admin.php:43-48 | after `set_token(t)` the persisted `'sferanet_token'` slot and the in-memory token both hold `t` |
| TokenStore.GetAfterSet | admin/class-sferanet-wordpress-integration-admin.php:43-55 | `get_token()` after `set_token(t)` returns `t`, whatever the slots held before |
| TokenStore.GetIgnoresOption | admin/class-sferanet-wordpress-integration-admin.php:53-55 | `get_token` reads only the in-memory field; the persisted slot never affects it |
| TokenStore.SetTokenLastWriteWins | admin/class-sferanet-wordpress-integration-admin.php:43-47 | setting a token is idempotent, and of two writes the last one wins |
| TokenValidator.ClaimsSegment | admin/class-sferanet-wordpress-integration-admin.php:170 | the `$payload` segment exists exactly when the token contains a dot; it is then the second segment `explode('.')` yields, and contains no dot itself |
| TokenValidator.ClaimsOfDotted | admin/class-sferanet-wordpress-integration-admin.php:170 | for every dotted token `header.claims` followed by nothing or by `.` and anything, the segment decoded is `claims` (two-segment tokens included, segments past the third ignored) |
| TokenValidator.IsTokenValid | admin/class-sferanet-wordpress-integration-admin.php:168-177 | a valid token is present and contains a dot; an absent or dot-free token is never valid |
| TokenValidator.ClaimsOfCompact | admin/class-sferanet-wordpress-integration-admin.php:170 | for `header.claims.signature` with dot-free header and claims, the segment decoded is `claims`, whatever the signature holds |
| TokenValidator.ValidIffFresh | admin/class-sferanet-wordpress-integration-admin.php:164-176 | every dotted token (two, three or more segments) is valid if and only if its claims carry an `exp` strictly greater than `now + 300` |
| TokenValidator.ExpiringAtDeadlineIsInvalid | admin/class-sferanet-wordpress-integration-admin.php:176 | a token whose `exp` equals `now + 300` exactly is not valid (strict look-ahead) |
| TokenValidator.NoExpIsInvalid | admin/class-sferanet-wordpress-integration-admin.php:174-176 | claims with no usable `exp` make the token invalid (fail closed) |
| TokenValidator.HeaderAndSignatureIrrelevant | admin/class-sferanet-wordpress-integration-admin.php:170-174 | replacing the header, or everything after the claims segment, never changes the verdict, because no signature is verified |
| TokenValidator.ValidStaysValidEarlier | admin/class-sferanet-wordpress-integration-admin.php:176 | a token valid at `now` is valid at every earlier time |
| Authenticator.TokenInBody | admin/class-sferanet-wordpress-integration-admin.php:150-152 | `isset($body['token'])` holds exactly when the decoded body is an object with a non-null `token` key |
| Authenticator.Login | admin/class-sferanet-wordpress-integration-admin.php:134-161 | a transport error throws the prefixed transport message; a body with a token stores it in both slots and returns it; a body without one throws "token not set in response body"; every failure has code 1 and leaves both slots unchanged |
| Authenticator.TransportFailureMessage | admin/class-sferanet-wordpress-integration-admin.php:147-149 | the transport-failure message is exactly "Error during login call in Sfera Net: " followed by the transport message, and the state is unchanged |
| Authenticator.LoginThenGet | admin/class-sferanet-wordpress-integration-admin.php:150-155 | after a successful login, `get_token` returns the token login returned |
| Authenticator.LoginResultIndependentOfState | admin/class-sferanet-wordpress-integration-admin.php:134-161 | what login returns or throws depends only on the response, never on the previous token |
| Authenticator.Construct | admin/class-sferanet-wordpress-integration-admin.php:72-82 | construction succeeds exactly when the login body carries a token, which then fills both slots; otherwise it dies with "Login error: " and the login exception's message |
| Authenticator.ConstructIgnoresPersisted | admin/class-sferanet-wordpress-integration-admin.php:77-81 | the constructor logs in regardless of the persisted token, which never changes the outcome |
| SessionGuard.ValidateToken | admin/class-sferanet-wordpress-integration-admin.php:180-185 | at most one login call; none exactly when the current token is valid, and then nothing changes; when login runs the guard fails exactly when login fails, with login's own error and the state unchanged; after success a current token exists, taken from the login body if login ran |
| SessionGuard.StaleTokenRefreshed | admin/class-sferanet-wordpress-integration-admin.php:180-185 | a stale token with a login body carrying token `t` costs one login call, succeeds, and leaves `t` in both slots |
| SessionGuard.StaleTokenLogsIn | admin/class-sferanet-wordpress-integration-admin.php:180-185 | an absent, dot-free, exp-less or soon-expiring token costs exactly one login call |
| SessionGuard.GuardIgnoresOption | admin/class-sferanet-wordpress-integration-admin.php:180-185 | the guard decides from the in-memory token alone; the persisted slot never changes the calls made, the error or the resulting token |
| SessionGuard.GuardTwiceLogsInOnce | admin/class-sferanet-wordpress-integration-admin.php:180-185 | if the first guard leaves a fresh token, a second guard at the same moment makes no call and changes nothing: at most one login in all |
| SessionGuard.GuardOnCompactToken | admin/class-sferanet-wordpress-integration-admin.php:168-185 | for a compact token, the guard skips login exactly when the claims' `exp` lies strictly after `now + 300` |

## Left out

- The HTTP POST to `/login_check` (`wp_remote_post`) and the credentials it sends: the response is an input (`Authenticator.Response`).
- Concrete base64 and JSON decoding of the claims and reading `exp`: these are PHP built-ins, modelled as the abstract `claimsExp` parameter.
- Authenticator.TokenInBody: a `token` value that is a number, boolean, array or object is not modelled. Only string and null values are. PHP would store such a value as it is.
- TokenValidator.IsTokenValid: PHP's loose comparison of a non-integer `exp` (a float or a numeric string) with the deadline is not modelled. `claimsExp` yields an integer or nothing.
- Reading the clock (`strtotime('+5 min')`): `now` is a parameter and the deadline is `now + 300`.
- The `wp_die` abort in the constructor: modelled only as a `Failure` carrying the message it would print.
- `enqueue_styles` and `enqueue_scripts`: they are WordPress asset registration with no logic.
- The plugin name, version and base URL fields set by the constructor: they are constants that do not affect the token logic.
- The file-writing debug logger: it is file I/O behind a debug flag and never decides anything.
- Plugin bootstrap, activation, deactivation and translation loading: they are empty hooks or framework calls.
- The status constant tables (service types, practice and account statuses): they are data with no behaviour.
- The authenticated request executor, the HTTP status-code mapping and the domain operations (customers, bookings, passengers, services, quotes, payments): their code is not part of this model.
- Concurrent access to the shared option slot: the code is sequential.
