/**
 * `is_token_valid`: the look-ahead freshness check on a JWT-shaped bearer
 * token (compact serialisation, RFC 7519 section 3 / RFC 7515 section 7.1).
 * No signature is verified.
 */
module TokenValidator {
  import opened Wrappers
  import Explode

  /** Segment separator of the compact serialisation. */
  const Dot: char := '.'

  /** `strtotime('+5 min')` is the current time plus this many seconds. */
  const LookAheadSeconds: int := 300

  /**
   * Base64 decoding, JSON decoding and reading the `exp` claim (RFC 7519
   * section 4.1.4) of the claims segment, as one opaque step: `None` when any
   * of them gives nothing usable.
   */
  type ClaimsDecoder = string -> Option<int>

  /** A token in compact form: header, claims and signature joined by dots. */
  function Compact(header: string, claims: string, signature: string): string
  {
    header + [Dot] + claims + [Dot] + signature
  }

  /**
   * The second `.`-segment, as `list($header, $payload, $signature) = explode('.', $token)`
   * binds it: segments past the third are ignored, and a token with a single
   * segment leaves `$payload` null, modelled as `None`.
   */
  function ClaimsSegment(token: string): (p: Option<string>)
    ensures p.Some? <==> Dot in token
    ensures p.Some? ==> Dot !in p.value
    ensures p.Some? ==> |Explode.Split(token, Dot)| >= 2 && p.value == Explode.Split(token, Dot)[1]
  {
    Explode.SplitManyIffSep(token, Dot);
    var parts := Explode.Split(token, Dot);
    if |parts| >= 2 then Some(parts[1]) else None
  }

  /**
   * What may follow the claims segment: nothing (a two-segment token such as
   * `h.c`) or a dot and then anything (the signature, and any further segments).
   */
  predicate EndsClaims(rest: string)
  {
    rest == [] || rest[0] == Dot
  }

  /**
   * Every dotted token has this shape: for `header.claims` followed by
   * nothing or by `.` and anything, the segment decoded is `claims`.
   */
  lemma ClaimsOfDotted(header: string, claims: string, rest: string)
    requires Dot !in header && Dot !in claims && EndsClaims(rest)
    ensures ClaimsSegment(header + [Dot] + claims + rest) == Some(claims)
  {
    assert header + [Dot] + claims + rest == header + [Dot] + (claims + rest);
    Explode.SplitSegmentThenSep(header, claims + rest, Dot);
    if rest == [] {
      Explode.SplitDotFreePrefix(claims, "", Dot);
      assert claims + rest == claims + "";
      assert claims + "" == claims;
    } else {
      assert rest == [Dot] + rest[1..];
      assert claims + rest == claims + [Dot] + rest[1..];
      Explode.SplitSegmentThenSep(claims, rest[1..], Dot);
    }
  }

  /** Is `exp` later than the look-ahead deadline measured from `now`? */
  predicate FreshAt(exp: int, now: int)
  {
    exp > now + LookAheadSeconds
  }

  /**
   * `is_token_valid`: true exactly when the claims segment decodes to an `exp`
   * that is fresh at `now`. An absent token, a token without a dot, and claims
   * without a usable `exp` are all invalid (the PHP code reaches `false` there
   * through warnings and a comparison with null).
   */
  function IsTokenValid(token: Option<string>, now: int, claimsExp: ClaimsDecoder): (valid: bool)
    ensures valid ==> token.Some? && Dot in token.value
  {
    match token
    case None => false
    case Some(t) =>
      match ClaimsSegment(t)
      case None => false
      case Some(p) =>
        match claimsExp(p)
        case None => false
        case Some(exp) => FreshAt(exp, now)
  }

  /** The claims segment of a compact token is its middle part, whatever the signature holds. */
  lemma ClaimsOfCompact(header: string, claims: string, signature: string)
    requires Dot !in header && Dot !in claims
    ensures ClaimsSegment(Compact(header, claims, signature)) == Some(claims)
  {
    assert Compact(header, claims, signature) == header + [Dot] + claims + ([Dot] + signature);
    ClaimsOfDotted(header, claims, [Dot] + signature);
  }

  /**
   * A dotted token (two segments, three, or more) is valid exactly when its
   * claims carry an `exp` strictly after the look-ahead deadline.
   */
  lemma ValidIffFresh(header: string, claims: string, rest: string, now: int, claimsExp: ClaimsDecoder)
    requires Dot !in header && Dot !in claims && EndsClaims(rest)
    ensures IsTokenValid(Some(header + [Dot] + claims + rest), now, claimsExp)
        <==> (claimsExp(claims).Some? && claimsExp(claims).value > now + LookAheadSeconds)
  {
    ClaimsOfDotted(header, claims, rest);
  }

  /** A token expiring exactly at the look-ahead deadline is already invalid. */
  lemma ExpiringAtDeadlineIsInvalid(header: string, claims: string, signature: string, now: int, claimsExp: ClaimsDecoder)
    requires Dot !in header && Dot !in claims
    requires claimsExp(claims) == Some(now + LookAheadSeconds)
    ensures !IsTokenValid(Some(Compact(header, claims, signature)), now, claimsExp)
  {
    ClaimsOfCompact(header, claims, signature);
  }

  /** Claims without a usable `exp` make the token invalid (fail closed). */
  lemma NoExpIsInvalid(header: string, claims: string, signature: string, now: int, claimsExp: ClaimsDecoder)
    requires Dot !in header && Dot !in claims
    requires claimsExp(claims).None?
    ensures !IsTokenValid(Some(Compact(header, claims, signature)), now, claimsExp)
  {
    ClaimsOfCompact(header, claims, signature);
  }

  /**
   * Only the claims segment matters: replacing the header, or everything after
   * the claims (signature and further segments), never changes the verdict,
   * since no signature is checked.
   */
  lemma HeaderAndSignatureIrrelevant(h1: string, h2: string, claims: string, rest1: string, rest2: string,
                                     now: int, claimsExp: ClaimsDecoder)
    requires Dot !in h1 && Dot !in h2 && Dot !in claims
    requires EndsClaims(rest1) && EndsClaims(rest2)
    ensures IsTokenValid(Some(h1 + [Dot] + claims + rest1), now, claimsExp)
        == IsTokenValid(Some(h2 + [Dot] + claims + rest2), now, claimsExp)
  {
    ClaimsOfDotted(h1, claims, rest1);
    ClaimsOfDotted(h2, claims, rest2);
  }

  /** A token valid now was valid at every earlier moment. */
  lemma ValidStaysValidEarlier(token: Option<string>, earlier: int, now: int, claimsExp: ClaimsDecoder)
    requires earlier <= now
    requires IsTokenValid(token, now, claimsExp)
    ensures IsTokenValid(token, earlier, claimsExp)
  {
  }
}
