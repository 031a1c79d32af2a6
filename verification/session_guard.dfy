/** `validate_token`: log in again only when the current token is not fresh. */
module SessionGuard {
  import opened Wrappers
  import opened TokenStore
  import opened TokenValidator
  import opened Authenticator

  /** The state after the guard, how many login calls it made, and what it threw, if anything. */
  datatype GuardOutcome = GuardOutcome(state: TokenState, logins: nat, error: Option<LoginError>)

  /**
   * `validate_token`: checks the in-memory token at `now`; when it is not valid,
   * calls login once with the backend's response `resp`, letting its exception
   * through.
   */
  function ValidateToken(s: TokenState, now: int, claimsExp: ClaimsDecoder, resp: Response): (g: GuardOutcome)
    ensures g.logins <= 1
    ensures g.logins == 0 <==> IsTokenValid(GetToken(s), now, claimsExp)
    ensures g.logins == 0 ==> g.state == s && g.error.None?
    ensures g.error.Some? ==> g.state == s && g.logins == 1
    ensures g.error.None? ==> GetToken(g.state).Some?
    ensures g.logins == 1 ==> (g.error.None? <==> Login(s, resp).result.Success?)
    ensures g.error.Some? ==> Login(s, resp).result == Failure(g.error.value)
    ensures g.logins == 1 && g.error.None? ==>
      resp.Http? && TokenInBody(resp.body).Some? && g.state == SetToken(s, TokenInBody(resp.body).value)
  {
    if IsTokenValid(GetToken(s), now, claimsExp) then
      GuardOutcome(s, 0, None)
    else
      var step := Login(s, resp);
      match step.result
      case Success(_) => GuardOutcome(step.state, 1, None)
      case Failure(e) => GuardOutcome(step.state, 1, Some(e))
  }

  /**
   * A missing token, a token without a dot, or one whose `exp` is at or before
   * the look-ahead deadline always costs exactly one login call.
   */
  lemma StaleTokenLogsIn(s: TokenState, now: int, claimsExp: ClaimsDecoder, resp: Response)
    requires s.field.None?
          || Dot !in s.field.value
          || (ClaimsSegment(s.field.value).Some?
              && (claimsExp(ClaimsSegment(s.field.value).value).None?
                  || claimsExp(ClaimsSegment(s.field.value).value).value <= now + LookAheadSeconds))
    ensures ValidateToken(s, now, claimsExp, resp).logins == 1
  {
  }

  /** The guard decides from the in-memory token alone: the persisted slot never matters. */
  lemma GuardIgnoresOption(s: TokenState, o: Option<string>, now: int, claimsExp: ClaimsDecoder, resp: Response)
    ensures ValidateToken(s.(option := o), now, claimsExp, resp).logins
         == ValidateToken(s, now, claimsExp, resp).logins
    ensures ValidateToken(s.(option := o), now, claimsExp, resp).error
         == ValidateToken(s, now, claimsExp, resp).error
    ensures GetToken(ValidateToken(s.(option := o), now, claimsExp, resp).state)
         == GetToken(ValidateToken(s, now, claimsExp, resp).state)
  {
  }

  /**
   * Running the guard twice at the same moment logs in at most once in all:
   * once the first run leaves a fresh token, the second makes no call and
   * changes nothing.
   */
  lemma GuardTwiceLogsInOnce(s: TokenState, now: int, claimsExp: ClaimsDecoder, r1: Response, r2: Response)
    requires IsTokenValid(GetToken(ValidateToken(s, now, claimsExp, r1).state), now, claimsExp)
    ensures var g1 := ValidateToken(s, now, claimsExp, r1);
            var g2 := ValidateToken(g1.state, now, claimsExp, r2);
            g1.logins + g2.logins <= 1 && g2.state == g1.state && g2.error.None?
  {
  }

  /**
   * End to end with a compact token: the guard leaves state alone exactly when
   * the claims' `exp` lies strictly after the look-ahead deadline.
   */
  lemma GuardOnCompactToken(h: string, p: string, sig: string, option: Option<string>,
                            now: int, claimsExp: ClaimsDecoder, resp: Response)
    requires Dot !in h && Dot !in p
    ensures var s := TokenState(option, Some(Compact(h, p, sig)));
            (ValidateToken(s, now, claimsExp, resp).logins == 0) <==> (claimsExp(p).Some? && claimsExp(p).value > now + LookAheadSeconds)
  {
    ClaimsOfCompact(h, p, sig);
  }

  /**
   * A stale token and a login body carrying a token: the guard succeeds, and
   * the current token is the one from the body.
   */
  lemma StaleTokenRefreshed(s: TokenState, now: int, claimsExp: ClaimsDecoder, fields: map<string, Option<string>>, t: string)
    requires !IsTokenValid(GetToken(s), now, claimsExp)
    requires TokenKey in fields && fields[TokenKey] == Some(t)
    ensures var g := ValidateToken(s, now, claimsExp, Http(Object(fields)));
            g.logins == 1 && g.error.None? && GetToken(g.state) == Some(t) && g.state.option == Some(t)
  {
  }
}
