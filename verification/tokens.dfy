/**
 The values that flow between the refresh-on-demand token source, the OAuth2
 provider and a token repository: identifiers, tokens, errors and results.
 */
module Tokens {

  newtype Byte = x: int | 0 <= x < 256

  /** A `uuid.UUID`: sixteen bytes identifying whose token is stored. */
  type Uuid = s: seq<Byte> | |s| == 16 witness seq(16, _ => 0)

  /** An OAuth2 token. Tokens are issued whole and replaced whole, never edited. */
  datatype OAuthToken = OAuthToken(accessToken: string, tokenType: string, refreshToken: string, expiry: int)

  datatype Option<+T> = None | Some(value: T)

  /** A `*oauth2.Token`: `None` is the nil pointer. */
  type TokenRef = Option<OAuthToken>

  /** A Go `error`. Errors are only ever passed along, never inspected. */
  datatype Error = Error(message: string)

  /** A Go `(value, error)` pair in which exactly one half is meaningful. */
  datatype Result<+T> = Ok(value: T) | Err(error: Error)

  /**
   `(*oauth2.Token).Valid()` as seen at time `now`. On a non-nil token the
   OAuth2 library checks two things, neither of them modelled: that the access
   token is not empty, and its expiry and clock-skew rule. `unexpired` stands
   for both tests together. A nil token is never valid.

   The rule travels with the time on purpose. In the library the rule is
   fixed and only `now` moves. A sequence of `Validity` values that all share
   one `unexpired` is that case. Results stated for every such sequence also
   hold for the library's fixed rule.
   */
  datatype Validity = Validity(now: int, unexpired: (OAuthToken, int) -> bool) {
    predicate Valid(p: TokenRef) {
      p.Some? && unexpired(p.value, now)
    }
  }
}
