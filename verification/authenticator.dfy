/**
 * `login_sferanet` and the login step of the admin class constructor. The
 * POST to `/login_check` is not modelled; its response is an input.
 */
module Authenticator {
  import opened Wrappers
  import opened TokenStore

  /** The JSON body as `json_decode($body, true)` leaves it. */
  datatype ParsedBody =
    | NotObject                                  // invalid JSON, a scalar or a list
    | Object(fields: map<string, Option<string>>) // `None` is a JSON `null` value

  /** What `wp_remote_post` hands back: a `WP_Error` or an HTTP response. */
  datatype Response =
    | TransportError(message: string)
    | Http(body: ParsedBody)

  /** The PHP `Exception` thrown by a failed login: its message and its code. */
  datatype LoginError = LoginError(message: string, code: int)

  /** The state after an operation, and what it returned or threw. */
  datatype Step<+T> = Step(state: TokenState, result: Result<T, LoginError>)

  const TransportPrefix: string := "Error during login call in Sfera Net: "
  const MissingTokenMessage: string := "Error Processing Request: token not set in response body"
  const LoginErrorCode: int := 1
  const TokenKey: string := "token"

  /** `isset($body['token'])` together with the value it guards. */
  function TokenInBody(body: ParsedBody): (t: Option<string>)
    ensures t.Some? <==> body.Object? && TokenKey in body.fields && body.fields[TokenKey].Some?
    ensures t.Some? ==> t == body.fields[TokenKey]
  {
    match body
    case NotObject => None
    case Object(fields) => if TokenKey in fields then fields[TokenKey] else None
  }

  /**
   * `login_sferanet`: a transport failure throws with the transport message
   * appended to a fixed prefix; a body with a non-null `token` stores it in
   * both slots and returns it; any other body throws. Failures change nothing.
   */
  function Login(s: TokenState, resp: Response): (r: Step<string>)
    ensures r.result.Success? ==> r.state == SetToken(s, r.result.value)
    ensures r.result.Success? ==> r.state.option == r.state.field == Some(r.result.value)
    ensures r.result.Failure? ==> r.state == s && r.result.error.code == LoginErrorCode
    ensures resp.TransportError? ==>
      r.result == Failure(LoginError(TransportPrefix + resp.message, LoginErrorCode))
    ensures resp.Http? ==>
      match TokenInBody(resp.body)
      case Some(t) => r.result == Success(t)
      case None => r.result == Failure(LoginError(MissingTokenMessage, LoginErrorCode))
  {
    match resp
    case TransportError(msg) =>
      Step(s, Failure(LoginError(TransportPrefix + msg, LoginErrorCode)))
    case Http(body) =>
      match TokenInBody(body)
      case Some(t) => Step(SetToken(s, t), Success(t))
      case None => Step(s, Failure(LoginError(MissingTokenMessage, LoginErrorCode)))
  }

  /** A transport failure throws a message that starts with the fixed prefix and ends with the cause. */
  lemma TransportFailureMessage(s: TokenState, msg: string)
    ensures var r := Login(s, TransportError(msg));
      && r.state == s
      && r.result.Failure?
      && |r.result.error.message| == |TransportPrefix| + |msg|
      && r.result.error.message[..|TransportPrefix|] == TransportPrefix
      && r.result.error.message[|TransportPrefix|..] == msg
  {
  }

  /** Whatever the previous token was, a successful login leaves the returned token current. */
  lemma LoginThenGet(s: TokenState, resp: Response)
    requires Login(s, resp).result.Success?
    ensures GetToken(Login(s, resp).state) == Some(Login(s, resp).result.value)
  {
  }

  /** Login's outcome does not depend on the state it starts from, except where it fails. */
  lemma LoginResultIndependentOfState(s1: TokenState, s2: TokenState, resp: Response)
    ensures Login(s1, resp).result == Login(s2, resp).result
    ensures Login(s1, resp).result.Success? ==> Login(s1, resp).state == Login(s2, resp).state
  {
  }

  const DieMessagePrefix: string := "Login error: "

  /**
   * The login step of `__construct`: starting with the persisted slot as it is
   * and no in-memory token, log in; on success the in-memory token is the one
   * returned, on failure the request dies with the exception's message behind
   * a fixed prefix (`wp_die`), modelled as a `Failure`.
   */
  function Construct(persisted: Option<string>, resp: Response): (r: Result<TokenState, string>)
    ensures r.Success? <==> resp.Http? && TokenInBody(resp.body).Some?
    ensures r.Success? ==> r.value.field == r.value.option == TokenInBody(resp.body)
    ensures r.Failure? ==> r.error == DieMessagePrefix + Login(TokenState(persisted, None), resp).result.error.message
  {
    var step := Login(TokenState(persisted, None), resp);
    match step.result
    case Success(t) => Success(step.state.(field := Some(t)))
    case Failure(e) => Failure(DieMessagePrefix + e.message)
  }

  /** The persisted token is never consulted at construction: a successful start ignores it. */
  lemma ConstructIgnoresPersisted(p1: Option<string>, p2: Option<string>, resp: Response)
    ensures Construct(p1, resp) == Construct(p2, resp)
  {
  }
}
