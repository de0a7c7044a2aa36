/**
 * `authMiddleware` of backend/src/middleware/auth.ts and its private copy of
 * the token check, `verifyJWT` with its own `hmacSHA256`.
 *
 * The request context is a class: the `user` slot that `c.set` writes, and
 * the value of that slot each time the next handler ran. Whether the next
 * handler throws is a parameter.
 */
module AuthMiddleware {
  import opened Wrappers
  import opened Types
  import opened Text
  import opened Base64
  import opened Token

  /** The `Authorization` scheme prefix, case included. */
  const BEARER: string := "Bearer "

  /** The token carried by an `Authorization` header, if it is a bearer header. */
  function BearerToken(authorization: Option<string>): (token: Option<string>)
    ensures token.Some? <==> authorization.Some? && StartsWith(authorization.value, BEARER)
    ensures token.Some? ==> authorization.value == BEARER + token.value
  {
    if authorization.Some? && authorization.value != "" && StartsWith(authorization.value, BEARER) then
      assert authorization.value == authorization.value[..7] + authorization.value[7..];
      Some(authorization.value[7..])
    else None
  }

  /** The middleware's `hmacSHA256(data, secret)`. */
  function HmacSha256(data: string, secret: string, hmac: Hmac): (r: string)
    ensures r == Token.Signature(data, secret, hmac)
  {
    var digest := hmac(secret, data);
    ToBytesOfFromBytes(digest);
    BtoaAtobRoundTrip(FromBytes(digest));
    RemoveEquals(Btoa(FromBytes(digest)).value)
  }

  /** `verifyJWT(token, secret)`: it accepts exactly what `JWT.verify` accepts, with the same payload. */
  function VerifyJwt(token: string, secret: string, now: int, json: Json, hmac: Hmac): (r: Option<Claims>)
    ensures r == Token.Verify(token, secret, now, json, hmac)
  {
    var parts := Split(token);
    var header, payload, signature := Piece(parts, 0), Piece(parts, 1), Piece(parts, 2);
    if header == "" || payload == "" || signature == "" then None
    else if signature != HmacSha256(header + "." + payload, secret, hmac) then None
    else
      var decoded := if Atob(payload).Some? then json.parse(Atob(payload).value) else None;
      if decoded.None? then None
      else if decoded.value.exp.Some? && decoded.value.exp.value != 0 && decoded.value.exp.value < now then None
      else decoded
  }

  /** The Hono context of one request, as far as the middleware touches it. */
  class RequestContext {
    /** `c.get('user')`. */
    var user: Option<Claims>
    /** The `user` slot as the next handler saw it, one entry per call of `next`. */
    var seenByNext: seq<Option<Claims>>

    constructor ()
      ensures user == None && seenByNext == []
    {
      user, seenByNext := None, [];
    }
  }

  /**
   * `authMiddleware`: Ok when the request went on to the next handler and
   * that handler returned; otherwise the 401 reply the middleware sends.
   */
  method Authenticate(ctx: RequestContext, authorization: Option<string>, secret: string, now: int,
                      json: Json, hmac: Hmac, nextThrows: bool) returns (reply: Response<()>)
    modifies ctx
    ensures BearerToken(authorization).None? ==>
      reply == Fail(401, "Unauthorized") && ctx.user == old(ctx.user) && ctx.seenByNext == old(ctx.seenByNext)
    ensures BearerToken(authorization).Some? && Verify(BearerToken(authorization).value, secret, now, json, hmac).None? ==>
      reply == Fail(401, "Invalid token") && ctx.user == old(ctx.user) && ctx.seenByNext == old(ctx.seenByNext)
    ensures BearerToken(authorization).Some? && Verify(BearerToken(authorization).value, secret, now, json, hmac).Some? ==>
      && ctx.user == Verify(BearerToken(authorization).value, secret, now, json, hmac)
      && ctx.seenByNext == old(ctx.seenByNext) + [ctx.user]
      && reply == (if nextThrows then Fail(401, "Unauthorized") else Ok(()))
  {
    if authorization.None? || authorization.value == "" || !StartsWith(authorization.value, BEARER) {
      return Fail(401, "Unauthorized");
    }
    var token := authorization.value[7..];
    var payload := VerifyJwt(token, secret, now, json, hmac);
    if payload.None? {
      return Fail(401, "Invalid token");
    }
    ctx.user := payload;
    ctx.seenByNext := ctx.seenByNext + [ctx.user];
    if nextThrows {
      return Fail(401, "Unauthorized");
    }
    return Ok(());
  }

  /**
   * A request carrying `Bearer ` and a token issued under the same secret
   * reaches the next handler with the token's payload in the `user` slot,
   * unless the payload has expired.
   */
  lemma IssuedTokenPasses(c: Claims, secret: string, now: int, json: Json, hmac: Hmac)
    requires WellFormed(json)
    requires IsBinaryString(json.stringify(c))
    ensures BearerToken(Some(BEARER + Sign(c, secret, json, hmac).value)) == Some(Sign(c, secret, json, hmac).value)
    ensures VerifyJwt(Sign(c, secret, json, hmac).value, secret, now, json, hmac)
      == if Expired(c, now) then None else Some(c)
  {
    SignVerify(c, secret, now, json, hmac);
    var t := Sign(c, secret, json, hmac).value;
    assert (BEARER + t)[..7] == BEARER;
    assert (BEARER + t)[7..] == t;
  }
}
