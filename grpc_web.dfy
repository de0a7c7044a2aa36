/**
 * The service adapters of frontend/src/grpcweb.ts, which turn the
 * frontend's resource names (`memos/12`, `users/3`, `workspace/GENERAL`)
 * back into the ids and keys the REST client takes, and pick the fields
 * forwarded to the backend. Each adapter is modelled by the call it makes
 * on the client, or the error it throws.
 */
module GrpcWeb {
  import opened Wrappers
  import opened Text
  import ApiClient
  import UserRoutes

  const MEMO_PREFIX: string := "memos/"
  const USER_PREFIX: string := "users/"

  /** `parseInt(name.replace(prefix, ''))`; None is NaN. */
  function IdOf(name: string, prefix: string): Option<int> {
    ParseInt(ReplaceFirst(name, prefix, ""))
  }

  function MemoIdOf(name: string): Option<int> {
    IdOf(name, MEMO_PREFIX)
  }

  function UserIdOf(name: string): Option<int> {
    IdOf(name, USER_PREFIX)
  }

  /**
   * The id parsing inverts the naming: the name built from any integer id
   * gives that id back, and so does a name with a suffix that cannot
   * continue the number.
   */
  lemma NameRoundTrip(prefix: string, id: int, suffix: string)
    requires suffix == [] || (DigitValue(suffix[0], 10) < 0 && suffix[0] != 'x' && suffix[0] != 'X')
    ensures IdOf(prefix + IntToDecimal(id) + suffix, prefix) == Some(id)
  {
    assert prefix + IntToDecimal(id) + suffix == prefix + (IntToDecimal(id) + suffix);
    ReplaceFirstOfPrefix(prefix, IntToDecimal(id) + suffix);
    ParseIntOfDecimal(id, suffix);
  }

  /** Every name built from an integer id gives that id back. */
  lemma NamesRoundTrip(prefix: string)
    ensures forall id :: IdOf(prefix + IntToDecimal(id), prefix) == Some(id)
  {
    forall id ensures IdOf(prefix + IntToDecimal(id), prefix) == Some(id) {
      NameRoundTrip(prefix, id, "");
      assert prefix + IntToDecimal(id) + "" == prefix + IntToDecimal(id);
    }
  }

  /** The names the client gives a memo and its creator are read back as the memo's and the creator's ids. */
  lemma ShapedNamesRoundTrip(m: ApiClient.RestMemo, nowMs: int)
    ensures MemoIdOf(ApiClient.ShapeMemo(m, nowMs).name) == Some(m.id)
    ensures UserIdOf(ApiClient.ShapeMemo(m, nowMs).creator) == Some(m.creatorId)
  {
    NameRoundTrip(MEMO_PREFIX, m.id, "");
    NameRoundTrip(USER_PREFIX, m.creatorId, "");
    assert MEMO_PREFIX + IntToDecimal(m.id) + "" == ApiClient.ShapeMemo(m, nowMs).name;
    assert USER_PREFIX + IntToDecimal(m.creatorId) + "" == ApiClient.ShapeMemo(m, nowMs).creator;
  }

  /**
   * The path segment `${id}` the client writes for a parsed id: its decimal
   * form, or `NaN`. The backend's `parseInt` of the segment is the id again.
   */
  function IdSegment(id: Option<int>): (seg: string)
    ensures ParseInt(seg) == id
    ensures id.Some? ==> seg == IntToDecimal(id.value)
  {
    if id.Some? then
      ParseIntOfDecimal(id.value, "");
      assert IntToDecimal(id.value) + "" == IntToDecimal(id.value);
      IntToDecimal(id.value)
    else
      assert LeadingSpace("NaN") == 0;
      assert DigitRun("NaN", 10) == 0;
      "NaN"
  }

  /**
   * `getMemo` and `deleteMemo`: the REST path for the memo `name` denotes.
   * The backend's `parseInt` of the path's last segment is the id parsed from
   * the name, and the name `memos/{id}` leads to the route of memo `id`.
   */
  function MemoPath(name: string): (path: string)
    ensures |path| >= 10 && path[..10] == "/api/memo/" && ParseInt(path[10..]) == MemoIdOf(name)
    ensures forall id :: name == MEMO_PREFIX + IntToDecimal(id) ==> path == "/api/memo/" + IntToDecimal(id)
  {
    NamesRoundTrip(MEMO_PREFIX);
    var path := "/api/memo/" + IdSegment(MemoIdOf(name));
    assert path[10..] == IdSegment(MemoIdOf(name));
    path
  }

  /**
   * `getUser` and `deleteUser`: the REST path for the user `name` denotes.
   * The backend's `parseInt` of the path's last segment is the id parsed from
   * the name, and the name `users/{id}` leads to the route of user `id`.
   */
  function UserPath(name: string): (path: string)
    ensures |path| >= 10 && path[..10] == "/api/user/" && ParseInt(path[10..]) == UserIdOf(name)
    ensures forall id :: name == USER_PREFIX + IntToDecimal(id) ==> path == "/api/user/" + IntToDecimal(id)
  {
    NamesRoundTrip(USER_PREFIX);
    var path := "/api/user/" + IdSegment(UserIdOf(name));
    assert path[10..] == IdSegment(UserIdOf(name));
    path
  }

  /** `getWorkspaceSetting`: the key is the name with its first `workspace/` removed. */
  function WorkspaceKeyOf(name: string): string {
    ReplaceFirst(name, ApiClient.WORKSPACE_PREFIX, "")
  }

  /**
   * The adapter answers the client's setting of the key left in the name; a
   * setting asked for by the name it was reported under is that same setting.
   */
  function GetWorkspaceSetting(name: string): (r: ApiClient.ClientWorkspaceSetting)
    ensures r.value == ApiClient.GetDefaultSetting(WorkspaceKeyOf(name))
    ensures forall key :: name == ApiClient.GetWorkspaceSetting(key).name ==> r == ApiClient.GetWorkspaceSetting(key)
  {
    ApiClient.GetWorkspaceSetting(WorkspaceKeyOf(name))
  }

  datatype Credentials = Credentials(username: string, password: string)

  /**
   * What an adapter does: make a call on the client, throw an `Error` with a
   * message, or throw the `TypeError` "apiClient.<name> is not a function".
   */
  datatype Outcome<T> = Calls(call: T) | Throws(message: string) | NotAFunction(methodName: string)

  /** `signIn`: the client is called with the password credentials, and without them the adapter throws. */
  function SignIn(passwordCredentials: Option<Credentials>): (r: Outcome<Credentials>)
    ensures r.Throws? <==> passwordCredentials.None?
    ensures r.Throws? ==> r.message == "Password credentials required"
    ensures r.Calls? ==> r.call == passwordCredentials.value
  {
    if passwordCredentials.Some? then Calls(passwordCredentials.value)
    else Throws("Password credentials required")
  }

  /** The user object of an `updateUser` request; keys the frontend left out are None. */
  datatype FrontUser = FrontUser(
    name: string, username: Option<string>, nickname: Option<string>, email: Option<string>,
    avatarUrl: Option<string>, description: Option<string>,
    role: Option<string>, state: Option<string>, password: Option<string>)

  /**
   * `updateUser`: the id parsed from the user's name, and a body of the five
   * profile fields; every other field, and the update mask, is dropped.
   * `JSON.stringify` leaves out the undefined ones, which the backend then
   * does not touch.
   */
  function UpdateUser(user: FrontUser, updateMask: seq<string>): (r: (string, UserRoutes.UserPatch))
    ensures r.0 == UserPath(user.name)
    ensures r.1.username == user.username && r.1.nickname == user.nickname && r.1.email == user.email
    ensures r.1.avatarUrl == user.avatarUrl && r.1.description == user.description
  {
    (UserPath(user.name),
     UserRoutes.UserPatch(user.username, user.nickname, user.email, user.avatarUrl, user.description))
  }

  /** Two requests that agree on the name and the five profile fields make the same call, whatever else they carry. */
  lemma UpdateUserForwardsOnlyProfile(u1: FrontUser, u2: FrontUser, mask1: seq<string>, mask2: seq<string>)
    requires u1.name == u2.name && u1.username == u2.username && u1.nickname == u2.nickname
    requires u1.email == u2.email && u1.avatarUrl == u2.avatarUrl && u1.description == u2.description
    ensures UpdateUser(u1, mask1) == UpdateUser(u2, mask2)
  {
  }

  /**
   * The methods an `ApiClient` instance has, its private ones included:
   * there is no `getUserSetting` and no `updateUserSetting`.
   */
  const CLIENT_METHODS: set<string> := {
    "request", "signIn", "signUp", "getCurrentUser", "getUser", "getUserByUsername", "listUsers",
    "updateUser", "deleteUser", "getMemos", "getMemo", "createMemo", "updateMemo", "deleteMemo",
    "getTags", "createTag", "deleteTag", "uploadResource", "getWorkspaceProfile",
    "getWorkspaceSetting", "getDefaultSetting", "getHealth"}

  /** The user id both user-setting adapters use, whoever is signed in. */
  const CURRENT_USER_ID: int := 1

  /** A call `apiClient[methodName](userId, setting)`. */
  datatype SettingCall = SettingCall(methodName: string, userId: int, setting: Option<UserRoutes.SettingPatch>)

  /** Calling a method on the client: a `TypeError` when the client has no such method. */
  function CallClient(methodName: string, userId: int, setting: Option<UserRoutes.SettingPatch>): (r: Outcome<SettingCall>)
    ensures r.NotAFunction? <==> methodName !in CLIENT_METHODS
    ensures r.NotAFunction? ==> r.methodName == methodName
    ensures !r.NotAFunction? ==> r == Calls(SettingCall(methodName, userId, setting))
  {
    if methodName in CLIENT_METHODS then Calls(SettingCall(methodName, userId, setting))
    else NotAFunction(methodName)
  }

  /**
   * `getUserSetting` as written: the call `apiClient.getUserSetting(1)`.
   * The discrepancy: it throws before any request is made.
   */
  function GetUserSettingAsWritten(): (r: Outcome<SettingCall>)
    ensures r == NotAFunction("getUserSetting")
  {
    assert "getUserSetting" !in CLIENT_METHODS;
    CallClient("getUserSetting", CURRENT_USER_ID, None)
  }

  /**
   * `updateUserSetting` as written: the call `apiClient.updateUserSetting(1, setting)`.
   * The discrepancy: it throws too, whatever the setting.
   */
  function UpdateUserSettingAsWritten(setting: UserRoutes.SettingPatch): (r: Outcome<SettingCall>)
    ensures r == NotAFunction("updateUserSetting")
  {
    assert "updateUserSetting" !in CLIENT_METHODS;
    CallClient("updateUserSetting", CURRENT_USER_ID, Some(setting))
  }

  /** A request to the backend's user-setting routes. */
  datatype SettingRequest = SettingRequest(httpMethod: string, path: string, body: Option<UserRoutes.SettingPatch>)

  /** The path segment of user 1 is `1`, which the route's `parseInt` reads as 1. */
  lemma OneIsOne()
    ensures IdSegment(Some(CURRENT_USER_ID)) == "1" && ParseInt("1") == Some(1)
  {
    assert NatToDecimal(1) == [DecimalDigit(1)];
  }

  function SettingPath(userId: int): string {
    "/api/user/" + IdSegment(Some(userId)) + "/setting"
  }

  /**
   * The user-setting adapters as meant: `GET` and `PATCH` on the setting
   * route of user 1, whatever user is signed in.
   */
  function GetUserSetting(): (r: SettingRequest)
    ensures r.httpMethod == "GET" && r.body.None?
    ensures r.path == "/api/user/1/setting"
  {
    OneIsOne();
    SettingRequest("GET", SettingPath(CURRENT_USER_ID), None)
  }

  function UpdateUserSetting(setting: UserRoutes.SettingPatch): (r: SettingRequest)
    ensures r.httpMethod == "PATCH" && r.body == Some(setting)
    ensures r.path == "/api/user/1/setting"
  {
    OneIsOne();
    SettingRequest("PATCH", SettingPath(CURRENT_USER_ID), Some(setting))
  }
}
