/**
 * The signed bearer token of backend/src/utils.ts (`JWT.sign`, `JWT.verify`,
 * `hmacSHA256`, `createJWTPayload`): an HS256 token in the compact shape of
 * RFC 7519, `header.payload.signature`, whose segments are the STANDARD
 * base64 of section 4 of RFC 4648 with the `=` padding removed (not the
 * base64url alphabet that section 2 of RFC 7515 asks for).
 *
 * HMAC-SHA256 and JSON are parameters: `hmac(key, data)` is any function onto
 * 32-byte digests, and `Json` is any pair of serialiser and parser. Properties
 * that need JSON to behave take `WellFormed(json)` as a hypothesis.
 */
module Token {
  import opened Wrappers
  import opened Types
  import opened Base64

  /** A SHA-256 sized digest. */
  type Digest = b: seq<Byte> | |b| == 32 witness seq(32, _ => 0)

  /** HMAC-SHA256 over the UTF-8 bytes of `(key, data)`. */
  type Hmac = (string, string) -> Digest

  /** `JSON.stringify` and `JSON.parse` of token payloads; parse gives None where it throws. */
  datatype Json = Json(stringify: Claims -> string, parse: string -> Option<Claims>)

  /** Parsing what was serialised gives the payload back, and a serialised object is never empty. */
  ghost predicate WellFormed(json: Json) {
    forall c :: json.parse(json.stringify(c)) == Some(c) && json.stringify(c) != ""
  }

  /** `JSON.stringify({alg: 'HS256', typ: 'JWT'})`. */
  const HeaderJson: string := "{\"alg\":\"HS256\",\"typ\":\"JWT\"}"

  lemma HeaderJsonIsBinary()
    ensures IsBinaryString(HeaderJson) && |HeaderJson| > 0
  {
  }

  /** `btoa(text).replace(/[=]/g, '')`, None where `btoa` throws. */
  function EncodeSegment(text: string): (r: Option<string>)
    ensures r.Some? <==> IsBinaryString(text)
    ensures r.Some? ==> r.value == Encode(ToBytes(text)) && Atob(r.value) == Some(text)
  {
    BtoaAtobRoundTrip(text);
    match Btoa(text)
    case None => None
    case Some(e) => Some(RemoveEquals(e))
  }

  /** `btoa(JSON.stringify(header)).replace(/[=]/g, '')`, the same for every token. */
  function EncodedHeader(): (h: string)
    ensures |h| > 0 && AllBase64(h)
  {
    HeaderJsonIsBinary();
    RemoveEqualsOfPadded(ToBytes(HeaderJson));
    EncodeShape(ToBytes(HeaderJson));
    RemoveEquals(Btoa(HeaderJson).value)
  }

  /** `hmacSHA256(data, secret)`: the digest as a binary string, through `btoa`, without `=`. */
  function Signature(data: string, secret: string, hmac: Hmac): (r: string)
    ensures r == Encode(hmac(secret, data))
  {
    var digest := hmac(secret, data);
    ToBytesOfFromBytes(digest);
    EncodeSegment(FromBytes(digest)).value
  }

  /** `token.split('.')`: the pieces between dots, always at least one. */
  function Split(s: string): (r: seq<string>)
    ensures |r| >= 1
    ensures forall i :: 0 <= i < |r| ==> '.' !in r[i]
  {
    if |s| == 0 then [""]
    else
      var rest := Split(s[1..]);
      if s[0] == '.' then [""] + rest
      else [[s[0]] + rest[0]] + rest[1..]
  }

  /** The pieces joined with `.`: what `split` takes apart. */
  function JoinDots(parts: seq<string>): string
    requires |parts| >= 1
  {
    if |parts| == 1 then parts[0] else parts[0] + "." + JoinDots(parts[1..])
  }

  lemma {:induction false} SplitJoin(s: string)
    ensures JoinDots(Split(s)) == s
  {
    if |s| > 0 {
      SplitJoin(s[1..]);
      var rest := Split(s[1..]);
      if s[0] == '.' {
        assert Split(s) == [""] + rest;
        assert ([""] + rest)[1..] == rest;
      } else {
        var r := Split(s);
        assert r == [[s[0]] + rest[0]] + rest[1..];
        if |rest| == 1 {
          assert r == [[s[0]] + rest[0]];
        } else {
          assert r[1..] == rest[1..];
          assert JoinDots(rest) == rest[0] + "." + JoinDots(rest[1..]);
        }
      }
    }
  }

  lemma {:induction false} SplitWithoutDot(a: string)
    requires '.' !in a
    ensures Split(a) == [a]
  {
    if |a| > 0 {
      assert '.' !in a[1..];
      SplitWithoutDot(a[1..]);
      assert [a[0]] + a[1..] == a;
    }
  }

  /** A dot ends the first piece, and splitting carries on after it. */
  lemma {:induction false} SplitAtDot(a: string, b: string)
    requires '.' !in a
    ensures Split(a + "." + b) == [a] + Split(b)
  {
    var s := a + "." + b;
    if |a| == 0 {
      assert s == "." + b;
      assert s[1..] == b;
    } else {
      assert a[0] != '.';
      assert s[1..] == a[1..] + "." + b;
      assert '.' !in a[1..];
      SplitAtDot(a[1..], b);
      assert [a[0]] + a[1..] == a;
    }
  }

  /** Destructuring `[header, payload, signature]`: a missing piece is `undefined`, as falsy as `''`. */
  function Piece(parts: seq<string>, i: nat): string {
    if i < |parts| then parts[i] else ""
  }

  /** `decoded.exp && decoded.exp < now`: an absent or zero `exp` never expires. */
  predicate Expired(c: Claims, now: int) {
    c.exp.Some? && c.exp.value != 0 && c.exp.value < now
  }

  /** `JWT.sign(payload, secret)`, None where `btoa` throws on the serialised payload. */
  function Sign(c: Claims, secret: string, json: Json, hmac: Hmac): (r: Option<string>)
    ensures r.Some? <==> IsBinaryString(json.stringify(c))
  {
    match EncodeSegment(json.stringify(c))
    case None => None
    case Some(payload) =>
      var data := EncodedHeader() + "." + payload;
      Some(data + "." + Signature(data, secret, hmac))
  }

  /**
   * `JWT.verify(token, secret)` at time `now`: the first three pieces must be
   * present and non-empty, the third must equal the signature recomputed over
   * the first two, the second must decode and parse, and the payload must
   * not have expired. None is the `null` of every failure, thrown or not.
   */
  function Verify(token: string, secret: string, now: int, json: Json, hmac: Hmac): (r: Option<Claims>)
    ensures r.Some? ==> !Expired(r.value, now)
  {
    var parts := Split(token);
    CheckPieces(Piece(parts, 0), Piece(parts, 1), Piece(parts, 2), secret, now, json, hmac)
  }

  /** The checks of `JWT.verify` once the token is split, in the order the code makes them. */
  function CheckPieces(header: string, payload: string, signature: string, secret: string, now: int, json: Json, hmac: Hmac): (r: Option<Claims>)
    ensures r.Some? ==> !Expired(r.value, now)
  {
    if header == "" || payload == "" || signature == "" then None
    else if signature != Signature(header + "." + payload, secret, hmac) then None
    else match Atob(payload)
      case None => None
      case Some(text) =>
        match json.parse(text)
        case None => None
        case Some(c) => if Expired(c, now) then None else Some(c)
  }

  /**
   * A verified token has three non-empty pieces whose third is the signature
   * of the first two under the secret, and whose payload parses to the result.
   * The signature check comes before any decoding: a wrong signature is
   * refused whatever the payload holds.
   */
  lemma VerifyAccepts(token: string, secret: string, now: int, json: Json, hmac: Hmac)
    ensures var parts := Split(token);
      Verify(token, secret, now, json, hmac).Some? ==>
        |parts| >= 3 && parts[0] != "" && parts[1] != "" && parts[2] != ""
        && parts[2] == Signature(parts[0] + "." + parts[1], secret, hmac)
        && Atob(parts[1]).Some?
        && json.parse(Atob(parts[1]).value) == Verify(token, secret, now, json, hmac)
    ensures var parts := Split(token);
      (|parts| < 3 || parts[0] == "" || parts[1] == "" || parts[2] == ""
       || parts[2] != Signature(parts[0] + "." + parts[1], secret, hmac))
      ==> Verify(token, secret, now, json, hmac) == None
  {
  }

  /** Three pieces without dots, joined with dots, split back into the same three. */
  lemma SplitThree(h: string, p: string, s: string)
    requires '.' !in h && '.' !in p && '.' !in s
    ensures Split(h + "." + p + "." + s) == [h, p, s]
  {
    SplitAtDot(h, p + "." + s);
    SplitAtDot(p, s);
    SplitWithoutDot(s);
    assert h + "." + p + "." + s == h + "." + (p + "." + s);
  }

  /** Base64 text never holds a dot. */
  lemma NoDotInBase64(x: string)
    requires AllBase64(x)
    ensures '.' !in x
  {
    forall i | 0 <= i < |x| ensures x[i] != '.' {
      assert IsBase64Char(x[i]);
    }
  }

  /** The pieces of an issued token: encoded header, encoded payload, signature. */
  lemma SignShape(c: Claims, secret: string, json: Json, hmac: Hmac)
    requires WellFormed(json)
    requires IsBinaryString(json.stringify(c))
    ensures var h, p := EncodedHeader(), Encode(ToBytes(json.stringify(c)));
      var s := Signature(h + "." + p, secret, hmac);
      && Sign(c, secret, json, hmac) == Some(h + "." + p + "." + s)
      && Split(h + "." + p + "." + s) == [h, p, s]
      && h != "" && p != "" && s != ""
      && AllBase64(h) && AllBase64(p) && AllBase64(s)
  {
    var h, p := EncodedHeader(), Encode(ToBytes(json.stringify(c)));
    var digest := hmac(secret, h + "." + p);
    var s := Signature(h + "." + p, secret, hmac);
    EncodeShape(ToBytes(json.stringify(c)));
    EncodeShape(digest);
    assert json.stringify(c) != "";
    assert |ToBytes(json.stringify(c))| > 0;
    NoDotInBase64(h);
    NoDotInBase64(p);
    NoDotInBase64(s);
    SplitThree(h, p, s);
  }

  /**
   * Round trip: a token issued for a payload whose serialisation `btoa`
   * accepts verifies, under the same secret, to that payload exactly when the
   * payload has not expired at the time of verification.
   */
  lemma {:induction false} SignVerify(c: Claims, secret: string, now: int, json: Json, hmac: Hmac)
    requires WellFormed(json)
    requires IsBinaryString(json.stringify(c))
    ensures Sign(c, secret, json, hmac).Some?
    ensures Verify(Sign(c, secret, json, hmac).value, secret, now, json, hmac)
      == if Expired(c, now) then None else Some(c)
  {
    SignShape(c, secret, json, hmac);
    var text := json.stringify(c);
    BtoaAtobRoundTrip(text);
    assert json.parse(text) == Some(c);
  }

  /** A payload whose `exp` is the very second of verification is still accepted. */
  lemma ExpiresAfterItsSecond(c: Claims, secret: string, json: Json, hmac: Hmac)
    requires WellFormed(json)
    requires IsBinaryString(json.stringify(c))
    requires c.exp.Some?
    ensures Verify(Sign(c, secret, json, hmac).value, secret, c.exp.value, json, hmac) == Some(c)
    ensures c.exp.value != 0 ==> Verify(Sign(c, secret, json, hmac).value, secret, c.exp.value + 1, json, hmac) == None
  {
    SignVerify(c, secret, c.exp.value, json, hmac);
    SignVerify(c, secret, c.exp.value + 1, json, hmac);
  }

  /** Issued tokens hold exactly two dots and no `=`: only alphabet characters between the dots. */
  lemma SignedTokenIsClean(c: Claims, secret: string, json: Json, hmac: Hmac)
    requires WellFormed(json)
    requires IsBinaryString(json.stringify(c))
    ensures var t := Sign(c, secret, json, hmac).value;
      |Split(t)| == 3 && '=' !in t
      && forall i :: 0 <= i < 3 ==> AllBase64(Split(t)[i])
  {
    SignShape(c, secret, json, hmac);
    var h, p := EncodedHeader(), Encode(ToBytes(json.stringify(c)));
    var s := Signature(h + "." + p, secret, hmac);
    var t := h + "." + p + "." + s;
    assert '=' !in t;
  }

  /** Anything after the third piece is ignored. */
  lemma {:induction false} ExtraPiecesIgnored(h: string, p: string, s: string, rest: string, secret: string, now: int, json: Json, hmac: Hmac)
    requires '.' !in h && '.' !in p && '.' !in s
    ensures Verify(h + "." + p + "." + s + "." + rest, secret, now, json, hmac)
      == Verify(h + "." + p + "." + s, secret, now, json, hmac)
  {
    var tail := s + "." + rest;
    SplitAtDot(s, rest);
    SplitAtDot(p, tail);
    SplitAtDot(h, p + "." + tail);
    assert h + "." + p + "." + s + "." + rest == h + "." + (p + "." + tail);
    var long := Split(h + "." + p + "." + s + "." + rest);
    assert long == [h, p, s] + Split(rest);
    SplitWithoutDot(s);
    SplitAtDot(p, s);
    SplitAtDot(h, p + "." + s);
    assert h + "." + p + "." + s == h + "." + (p + "." + s);
    var short := Split(h + "." + p + "." + s);
    assert short == [h, p, s];
    assert Piece(long, 0) == Piece(short, 0) && Piece(long, 1) == Piece(short, 1) && Piece(long, 2) == Piece(short, 2);
  }

  /**
   * A token is accepted under a second secret only if HMAC gives the two
   * secrets the same digest over its signed data: the signature comparison
   * compares the digests themselves.
   */
  lemma SecretBinding(c: Claims, secret: string, other: string, now: int, json: Json, hmac: Hmac)
    requires WellFormed(json)
    requires IsBinaryString(json.stringify(c))
    ensures var h, p := EncodedHeader(), Encode(ToBytes(json.stringify(c)));
      Verify(Sign(c, secret, json, hmac).value, other, now, json, hmac).Some?
      ==> hmac(secret, h + "." + p) == hmac(other, h + "." + p)
  {
    SignShape(c, secret, json, hmac);
    var h, p := EncodedHeader(), Encode(ToBytes(json.stringify(c)));
    EncodeInjective(hmac(secret, h + "." + p), hmac(other, h + "." + p));
  }

  /** `createJWTPayload(uid, username, role, expiresIn)` at time `now`; seven days by default. */
  function CreateJwtPayload(uid: string, username: string, role: Role, now: int, expiresIn: int := 7 * 24 * 60 * 60): (c: Claims)
    ensures c.sub == uid && c.username == username && c.role == role
    ensures c.iat == now && c.exp.Some? && c.exp.value - c.iat == expiresIn
  {
    Claims(uid, username, role, now, Some(now + expiresIn))
  }

  /**
   * A token issued by `createJWTPayload` at `issued` with the default lifetime
   * verifies at every time up to and including seven days later, and not after.
   */
  lemma FreshTokenLifetime(uid: string, username: string, role: Role, issued: int, now: int, secret: string, json: Json, hmac: Hmac)
    requires WellFormed(json)
    requires issued > 0
    requires IsBinaryString(json.stringify(CreateJwtPayload(uid, username, role, issued)))
    ensures var c := CreateJwtPayload(uid, username, role, issued);
      Verify(Sign(c, secret, json, hmac).value, secret, now, json, hmac).Some? <==> now <= issued + 604800
  {
    SignVerify(CreateJwtPayload(uid, username, role, issued), secret, now, json, hmac);
  }
}
