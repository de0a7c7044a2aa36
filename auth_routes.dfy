/**
 * The `/signin` and `/signup` handlers of src/routes/auth.ts and the file's
 * own copies of `signJWT`, `hashPassword` and `verifyPassword`.
 *
 * The clock, the fresh uid from `uuidv4`, the secret, SHA-256, HMAC-SHA256
 * and JSON are parameters. A `btoa` that throws while signing lands in the
 * handler's `catch` and becomes a 500 reply.
 */
module AuthRoutes {
  import opened Wrappers
  import opened Types
  import opened Base64
  import opened Token
  import opened Password
  import opened Schema
  import opened AuthMiddleware

  /** Token lifetime of the handlers: seven days in seconds. */
  const SESSION_SECONDS: int := 7 * 24 * 60 * 60

  /** The `user` object of a sign-in or sign-up reply. */
  datatype AuthUser = AuthUser(
    id: nat, uid: string, username: string, role: Role, email: Option<string>,
    avatarUrl: Option<string>, createdTs: int, updatedTs: int)

  /** The reply body `{ accessToken, user }`. */
  datatype Session = Session(accessToken: string, user: AuthUser)

  /** The columns `userResponse` copies out of a user row. */
  function ToAuthUser(u: UserRow): (a: AuthUser)
    ensures a.id == u.id && a.uid == u.uid && a.username == u.username && a.role == u.role
    ensures a.email == u.email && a.avatarUrl == u.avatarUrl
    ensures a.createdTs == u.createdTs && a.updatedTs == u.updatedTs
  {
    AuthUser(u.id, u.uid, u.username, u.role, u.email, u.avatarUrl, u.createdTs, u.updatedTs)
  }

  /** The reply's user does not depend on the stored password hash. */
  lemma AuthUserHidesHash(u: UserRow, hash: string)
    ensures ToAuthUser(u.(passwordHash := hash)) == ToAuthUser(u)
    ensures forall v: UserRow ::
      (v.passwordHash == u.passwordHash && ToAuthUser(v) == ToAuthUser(u)
       && v.nickname == u.nickname && v.description == u.description && v.rowStatus == u.rowStatus) ==> v == u
  {
  }

  /** `hashPassword(password)`: the same text as `Password.hash`. */
  function HashPassword(password: string, sha256: Sha256): (r: string)
    ensures r == Password.Hash(password, sha256)
  {
    var bytes := sha256(password);
    if |bytes| == 0 then "" else ByteHex(bytes[0]) + Hex(bytes[1..])
  }

  /** `verifyPassword(password, hash)`: the same answer as `Password.verify`. */
  function VerifyPassword(password: string, hash: string, sha256: Sha256): (ok: bool)
    ensures ok == Password.Verify(password, hash, sha256)
  {
    HashPassword(password, sha256) == hash
  }

  /** `signJWT(payload, secret)`: the same token as `JWT.sign`, None where `btoa` throws. */
  function SignJwt(c: Claims, secret: string, json: Json, hmac: Hmac): (r: Option<string>)
    ensures r == Token.Sign(c, secret, json, hmac)
  {
    var text := json.stringify(c);
    BtoaAtobRoundTrip(text);
    match Btoa(text)
    case None => None
    case Some(padded) =>
      var data := EncodedHeader() + "." + RemoveEquals(padded);
      Some(data + "." + HmacSha256(data, secret, hmac))
  }

  /** The payload both handlers sign: the user's uid, name and role, valid for seven days from `now`. */
  function SessionClaims(uid: string, username: string, role: Role, now: int): (c: Claims)
    ensures c == CreateJwtPayload(uid, username, role, now)
  {
    Claims(uid, username, role, now, Some(now + SESSION_SECONDS))
  }

  /** `SELECT * FROM user WHERE username = ? AND row_status = 'NORMAL'`, first row. */
  function NormalUserNamed(t: Tables, username: string): (r: Option<nat>)
    requires Valid(t)
    ensures r.Some? ==> r.value in t.users && t.users[r.value].username == username && IsNormal(t.users[r.value])
    ensures r.None? <==> forall id :: id in t.users ==> !(t.users[id].username == username && IsNormal(t.users[id]))
  {
    FirstWhere(t.users, (u: UserRow) => u.username == username && IsNormal(u), 0, t.nextUserId)
  }

  /**
   * `POST /signin`. Both a missing user and a wrong password give the same
   * 401 reply; the reply's user carries no password hash.
   */
  function SignIn(t: Tables, username: Option<string>, password: Option<string>, now: int,
                  secret: string, json: Json, hmac: Hmac, sha256: Sha256): (r: Response<Session>)
    requires Valid(t)
    ensures !Truthy(username) || !Truthy(password) <==> r == Fail(400, "USERNAME_AND_PASSWORD_REQUIRED")
    ensures r.Fail? && r.status == 401 ==> r.message == "INVALID_CREDENTIALS"
    ensures Truthy(username) && Truthy(password) && NormalUserNamed(t, username.value).None? ==>
      r == Fail(401, "INVALID_CREDENTIALS")
    ensures (Truthy(username) && Truthy(password) && NormalUserNamed(t, username.value).Some?
      && !Password.Verify(password.value, t.users[NormalUserNamed(t, username.value).value].passwordHash, sha256)) ==>
      r == Fail(401, "INVALID_CREDENTIALS")
    ensures (Truthy(username) && Truthy(password) && NormalUserNamed(t, username.value).Some?
      && var u := t.users[NormalUserNamed(t, username.value).value];
      && Password.Verify(password.value, u.passwordHash, sha256)
      && Sign(SessionClaims(u.uid, u.username, u.role, now), secret, json, hmac).Some?) ==> r.Ok?
    ensures r.Ok? ==>
      && Truthy(username) && Truthy(password)
      && NormalUserNamed(t, username.value).Some?
      && var u := t.users[NormalUserNamed(t, username.value).value];
      && Password.Verify(password.value, u.passwordHash, sha256)
      && r.value.user == ToAuthUser(u)
      && Some(r.value.accessToken) == Sign(SessionClaims(u.uid, u.username, u.role, now), secret, json, hmac)
    ensures r.Fail? ==> r.status in {400, 401, 500}
  {
    if !Truthy(username) || !Truthy(password) then Fail(400, "USERNAME_AND_PASSWORD_REQUIRED")
    else match NormalUserNamed(t, username.value)
      case None => Fail(401, "INVALID_CREDENTIALS")
      case Some(id) =>
        var u := t.users[id];
        if !VerifyPassword(password.value, u.passwordHash, sha256) then Fail(401, "INVALID_CREDENTIALS")
        else match SignJwt(SessionClaims(u.uid, u.username, u.role, now), secret, json, hmac)
          case None => Fail(500, "Internal server error")
          case Some(token) => Ok(Session(token, ToAuthUser(u)))
  }

  /**
   * A stored NORMAL user signing in with the right password gets a token that
   * verifies, for seven days from now, to their uid, name and role (a clock
   * before 1970 aside: an `exp` of exactly 0 would never expire).
   */
  lemma SignInIssuesSession(t: Tables, username: string, password: string, now: int, later: int,
                            secret: string, json: Json, hmac: Hmac, sha256: Sha256)
    requires Valid(t) && WellFormed(json) && now >= 0
    requires username != "" && password != ""
    requires SignIn(t, Some(username), Some(password), now, secret, json, hmac, sha256).Ok?
    ensures var u := t.users[NormalUserNamed(t, username).value];
      var s := SignIn(t, Some(username), Some(password), now, secret, json, hmac, sha256).value;
      Token.Verify(s.accessToken, secret, later, json, hmac)
        == if later <= now + SESSION_SECONDS then Some(Claims(u.uid, u.username, u.role, now, Some(now + SESSION_SECONDS))) else None
  {
    var u := t.users[NormalUserNamed(t, username).value];
    var c := SessionClaims(u.uid, u.username, u.role, now);
    var s := SignIn(t, Some(username), Some(password), now, secret, json, hmac, sha256).value;
    assert Some(s.accessToken) == Sign(c, secret, json, hmac);
    SignVerify(c, secret, later, json, hmac);
  }

  /** `SELECT COUNT(*) FROM user WHERE row_status = 'NORMAL'` is positive. */
  function NormalUserExists(t: Tables): (b: bool)
    requires Valid(t)
    ensures b <==> exists id :: id in t.users && IsNormal(t.users[id])
  {
    FirstWhere(t.users, (u: UserRow) => IsNormal(u), 0, t.nextUserId).Some?
  }

  /** `SELECT id FROM user WHERE username = ?` finds a row, whatever its status. */
  function UsernameTaken(t: Tables, username: string): (b: bool)
    requires Valid(t)
    ensures b <==> exists id :: id in t.users && t.users[id].username == username
  {
    FirstWhere(t.users, (u: UserRow) => u.username == username, 0, t.nextUserId).Some?
  }

  /** The row `/signup` inserts: a NORMAL HOST whose email is `null` unless given. */
  function NewHost(id: nat, uid: string, username: string, email: Option<string>, hash: string, now: int): UserRow {
    UserRow(id, uid, username, None, Host, if Truthy(email) then email else None,
            None, None, hash, Normal, now, now)
  }

  /**
   * `POST /signup`, which only creates the first account: refused while any
   * NORMAL user exists, then refused for a username already present in any
   * row; otherwise a NORMAL HOST is inserted and a session issued for it.
   */
  method SignUp(db: Database, username: Option<string>, password: Option<string>, email: Option<string>,
                newUid: string, now: int, secret: string, json: Json, hmac: Hmac, sha256: Sha256)
    returns (reply: Response<Session>)
    requires Valid(db.State())
    modifies db
    ensures Valid(db.State())
    ensures !Truthy(username) || !Truthy(password) ==>
      reply == Fail(400, "USERNAME_AND_PASSWORD_REQUIRED") && db.State() == old(db.State())
    ensures Truthy(username) && Truthy(password) && old(NormalUserExists(db.State())) ==>
      reply == Fail(403, "SIGNUP_DISABLED") && db.State() == old(db.State())
    ensures (Truthy(username) && Truthy(password) && !old(NormalUserExists(db.State()))
             && old(UsernameTaken(db.State(), username.value))) ==>
      reply == Fail(409, "USERNAME_ALREADY_EXISTS") && db.State() == old(db.State())
    ensures (Truthy(username) && Truthy(password) && !old(NormalUserExists(db.State()))
             && !old(UsernameTaken(db.State(), username.value))) ==>
      && var id := old(db.nextUserId);
      && var row := NewHost(id, newUid, username.value, email, Password.Hash(password.value, sha256), now);
      && db.State() == old(db.State()).(users := old(db.users)[id := row], nextUserId := id + 1)
      && (reply.Ok? <==> Sign(SessionClaims(newUid, username.value, Host, now), secret, json, hmac).Some?)
      && (reply.Ok? ==> Some(reply.value.accessToken) == Sign(SessionClaims(newUid, username.value, Host, now), secret, json, hmac))
      && (reply.Ok? && old(UserByUid(db.State(), newUid)).None? ==> reply.value.user == ToAuthUser(row))
      && (reply.Fail? ==> reply == Fail(500, "Internal server error"))
  {
    if !Truthy(username) || !Truthy(password) {
      return Fail(400, "USERNAME_AND_PASSWORD_REQUIRED");
    }
    if NormalUserExists(db.State()) {
      return Fail(403, "SIGNUP_DISABLED");
    }
    if UsernameTaken(db.State(), username.value) {
      return Fail(409, "USERNAME_ALREADY_EXISTS");
    }
    reply := CreateHost(db, username.value, password.value, email, newUid, now, secret, json, hmac, sha256);
  }

  /** The success path of `POST /signup`: insert the HOST, read it back by uid, sign its session. */
  method CreateHost(db: Database, username: string, password: string, email: Option<string>,
                    newUid: string, now: int, secret: string, json: Json, hmac: Hmac, sha256: Sha256)
    returns (reply: Response<Session>)
    requires Valid(db.State())
    modifies db
    ensures Valid(db.State())
    ensures var id := old(db.nextUserId);
      && var row := NewHost(id, newUid, username, email, Password.Hash(password, sha256), now);
      && db.State() == old(db.State()).(users := old(db.users)[id := row], nextUserId := id + 1)
      && (reply.Ok? <==> Sign(SessionClaims(newUid, username, Host, now), secret, json, hmac).Some?)
      && (reply.Ok? ==> Some(reply.value.accessToken) == Sign(SessionClaims(newUid, username, Host, now), secret, json, hmac))
      && (reply.Ok? && old(UserByUid(db.State(), newUid)).None? ==> reply.value.user == ToAuthUser(row))
      && (reply.Fail? ==> reply == Fail(500, "Internal server error"))
  {
    var passwordHash := HashPassword(password, sha256);
    ghost var before := db.State();
    var row := NewHost(db.nextUserId, newUid, username, email, passwordHash, now);
    var id := InsertUser(db, row);
    assert db.users[id].uid == newUid;
    if UserByUid(before, newUid).None? {
      FreshUidFound(before, row);
    }
    var newUser := UserByUid(db.State(), newUid);
    if newUser.None? {
      return Fail(500, "Internal server error");
    }
    var token := SignJwt(SessionClaims(newUid, username, Host, now), secret, json, hmac);
    if token.None? {
      return Fail(500, "Internal server error");
    }
    reply := Ok(Session(token.value, ToAuthUser(db.users[newUser.value])));
  }

  /** `INSERT INTO user ...`: the row goes under the next id. */
  method InsertUser(db: Database, row: UserRow) returns (id: nat)
    requires Valid(db.State()) && row.id == db.nextUserId
    modifies db
    ensures id == old(db.nextUserId) && Valid(db.State())
    ensures db.State() == old(db.State()).(users := old(db.users)[id := row], nextUserId := id + 1)
  {
    id := db.nextUserId;
    db.users := db.users[id := row];
    db.nextUserId := id + 1;
  }

  /** A row inserted under a uid no row had is the one the uid lookup finds. */
  lemma FreshUidFound(t: Tables, row: UserRow)
    requires Valid(t) && row.id == t.nextUserId && UserByUid(t, row.uid).None?
    ensures var t' := t.(users := t.users[row.id := row], nextUserId := row.id + 1);
      Valid(t') && UserByUid(t', row.uid) == Some(row.id)
  {
    var t' := t.(users := t.users[row.id := row], nextUserId := row.id + 1);
    assert Valid(t');
    var r := UserByUid(t', row.uid);
    assert r.Some? by {
      assert t'.users[row.id].uid == row.uid;
    }
    assert forall j :: j in t.users ==> t'.users[j] == t.users[j];
  }

  /** The first sign-up on an empty database creates a HOST that can then sign in with the same password. */
  lemma SignUpThenSignIn(t: Tables, username: string, password: string, email: Option<string>, newUid: string,
                         now: int, secret: string, json: Json, hmac: Hmac, sha256: Sha256)
    requires Valid(t) && !NormalUserExists(t) && !UsernameTaken(t, username)
    requires username != "" && password != ""
    requires IsBinaryString(json.stringify(SessionClaims(newUid, username, Host, now)))
    ensures var id := t.nextUserId;
      var t' := t.(users := t.users[id := NewHost(id, newUid, username, email, Password.Hash(password, sha256), now)], nextUserId := id + 1);
      && Valid(t')
      && NormalUserNamed(t', username) == Some(id)
      && SignIn(t', Some(username), Some(password), now, secret, json, hmac, sha256).Ok?
      && SignIn(t', Some(username), Some(password), now, secret, json, hmac, sha256).value.user.role == Host
  {
    var id := t.nextUserId;
    var row := NewHost(id, newUid, username, email, Password.Hash(password, sha256), now);
    NewHostNamed(t, row);
    VerifyAgainstHash(password, password, sha256);
  }

  /** On a database without a NORMAL user of that name, the inserted NORMAL row is the one the name finds. */
  lemma NewHostNamed(t: Tables, row: UserRow)
    requires Valid(t) && row.id == t.nextUserId && IsNormal(row)
    requires !UsernameTaken(t, row.username)
    ensures var t' := t.(users := t.users[row.id := row], nextUserId := row.id + 1);
      Valid(t') && NormalUserNamed(t', row.username) == Some(row.id)
  {
    var t' := t.(users := t.users[row.id := row], nextUserId := row.id + 1);
    assert Valid(t');
    forall j | j in t'.users && j != row.id ensures t'.users[j].username != row.username {
      assert t'.users[j] == t.users[j];
    }
    var r := NormalUserNamed(t', row.username);
    assert t'.users[row.id].username == row.username && IsNormal(t'.users[row.id]);
    assert r.Some?;
    assert t'.users[r.value].username == row.username;
  }

}
