/**
 * The REST client of frontend/src/api/client.ts: the choice of base URL, the
 * reshaping of backend memos into the protobuf-like objects the frontend
 * expects, the local default workspace settings, and the token kept in
 * `localStorage` after sign-in. Requests themselves (`fetch`) are not
 * modelled; the build-time variable, the page's host name and the current
 * time are parameters.
 */
module ApiClient {
  import opened Wrappers
  import opened Types
  import opened Text
  import opened Schema
  import opened TagExtract
  import AuthMiddleware

  const PAGES_HOST: string := "memos-cloudflare.pages.dev"
  const CUSTOM_HOST: string := "memos.51min.win"
  const WORKERS_URL: string := "https://memos-api.51min.win"

  /**
   * `getApiBaseUrl`: a configured URL, given an `https://` scheme when it
   * does not start with `http`; otherwise the Workers URL on the two
   * production hosts, and the empty (same-origin) prefix everywhere else.
   */
  function GetApiBaseUrl(configured: Option<string>, hostname: string): (url: string)
    ensures Truthy(configured) ==> StartsWith(url, "http")
    ensures Truthy(configured) && StartsWith(configured.value, "http") ==> url == configured.value
    ensures Truthy(configured) && !StartsWith(configured.value, "http") ==> url == "https://" + configured.value
    ensures !Truthy(configured) && (hostname == PAGES_HOST || hostname == CUSTOM_HOST) ==> url == WORKERS_URL
    ensures url == "" <==> !Truthy(configured) && hostname != PAGES_HOST && hostname != CUSTOM_HOST
  {
    if Truthy(configured) then
      var c := configured.value;
      if !StartsWith(c, "http") then
        assert ("https://" + c)[..4] == "http";
        "https://" + c
      else c
    else if hostname == PAGES_HOST || hostname == CUSTOM_HOST then
      assert WORKERS_URL[..4] == "http";
      WORKERS_URL
    else ""
  }

  /**
   * Configuring the URL the function chose, on any host, chooses it again:
   * every non-empty base URL starts with `http`.
   */
  lemma BaseUrlIdempotent(configured: Option<string>, hostname: string, otherHost: string)
    requires GetApiBaseUrl(configured, hostname) != ""
    ensures GetApiBaseUrl(Some(GetApiBaseUrl(configured, hostname)), otherHost) == GetApiBaseUrl(configured, hostname)
  {
    var url := GetApiBaseUrl(configured, hostname);
    if !Truthy(configured) {
      assert url == WORKERS_URL;
      assert WORKERS_URL[..4] == "http";
    }
  }

  /** A memo as the backend's JSON carries it; absent keys are None. */
  datatype RestMemo = RestMemo(
    id: int, uid: Option<string>, creatorId: int, content: Option<string>, visibility: Option<string>,
    tags: Option<seq<string>>, pinned: Option<bool>, resourceIdList: Option<seq<int>>,
    parent: Option<string>, createdTs: Option<int>, updatedTs: Option<int>, rowStatus: Option<string>)

  /** The memo object the frontend's stores expect. Times are in milliseconds since the epoch. */
  datatype FrontMemo = FrontMemo(
    name: string, uid: string, creator: string, content: string, visibility: string,
    tags: seq<string>, pinned: bool, resources: seq<int>, snippet: string, parent: string,
    createTime: int, updateTime: int, displayTime: int, state: RowStatus)

  /**
   * `s.slice(0, n)` where `s` is counted in UTF-16 code units: the longest
   * prefix of whole characters whose UTF-16 length is at most `n`.
   */
  function Utf16Prefix(s: string, n: nat): (p: string)
    ensures |p| <= |s| && p == s[..|p|]
    ensures Utf16Length(p) <= n
    ensures |p| < |s| ==> Utf16Length(s[..|p| + 1]) > n
    ensures Utf16Length(s) <= n ==> p == s
  {
    if |s| == 0 then ""
    else
      var w := if s[0] as int >= 0x10000 then 2 else 1;
      assert Utf16Length(s[..1]) == w by { assert s[..1][1..] == []; }
      if w > n then ""
      else
        var rest := Utf16Prefix(s[1..], n - w);
        assert |rest| < |s[1..]| ==> s[..|rest| + 2] == [s[0]] + s[1..][..|rest| + 1];
        assert ([s[0]] + rest)[1..] == rest;
        [s[0]] + rest
  }

  /** On text without characters beyond U+FFFF the snippet is exactly the first `n` characters. */
  lemma {:induction false} Utf16PrefixOfBmp(s: string, n: nat)
    requires forall i :: 0 <= i < |s| ==> s[i] as int < 0x10000
    ensures Utf16Prefix(s, n) == s[..if |s| < n then |s| else n]
    decreases |s|
  {
    if |s| > 0 && n > 0 {
      Utf16PrefixOfBmp(s[1..], n - 1);
      assert s[..if |s| < n then |s| else n] == [s[0]] + s[1..][..if |s[1..]| < n - 1 then |s[1..]| else n - 1];
    }
  }

  const SNIPPET_LENGTH: nat := 100

  /** `new Date(ts * 1000)` for a truthy timestamp, `new Date()` otherwise. */
  function Millis(ts: Option<int>, nowMs: int): (ms: int)
    ensures ts.Some? && ts.value != 0 ==> ms == ts.value * 1000
    ensures ts.None? || ts.value == 0 ==> ms == nowMs
  {
    if ts.Some? && ts.value != 0 then ts.value * 1000 else nowMs
  }

  /** The object literal `getMemos` and `getMemo` build from one backend memo. */
  function ShapeMemo(m: RestMemo, nowMs: int): (f: FrontMemo)
    ensures f.name == "memos/" + IntToDecimal(m.id)
    ensures f.creator == "users/" + IntToDecimal(m.creatorId)
    ensures f.uid == (if Truthy(m.uid) then m.uid.value else "memo-uid-" + IntToDecimal(m.id))
    ensures f.content == OrElse(m.content, "")
    ensures f.visibility == OrElse(m.visibility, PRIVATE)
    ensures f.tags == m.tags.GetOr([]) && f.resources == m.resourceIdList.GetOr([])
    ensures f.pinned <==> m.pinned == Some(true)
    ensures f.parent == OrElse(m.parent, "")
    ensures f.snippet == (if Truthy(m.content) then Utf16Prefix(m.content.value, SNIPPET_LENGTH) else "")
    ensures f.createTime == Millis(m.createdTs, nowMs) && f.displayTime == f.createTime
    ensures f.updateTime == Millis(m.updatedTs, nowMs)
    ensures f.state == Archived <==> m.rowStatus == Some("ARCHIVED")
  {
    FrontMemo(
      "memos/" + IntToDecimal(m.id),
      if Truthy(m.uid) then m.uid.value else "memo-uid-" + IntToDecimal(m.id),
      "users/" + IntToDecimal(m.creatorId),
      OrElse(m.content, ""),
      OrElse(m.visibility, PRIVATE),
      m.tags.GetOr([]),
      m.pinned.GetOr(false),
      m.resourceIdList.GetOr([]),
      if Truthy(m.content) then Utf16Prefix(m.content.value, SNIPPET_LENGTH) else "",
      OrElse(m.parent, ""),
      Millis(m.createdTs, nowMs),
      Millis(m.updatedTs, nowMs),
      Millis(m.createdTs, nowMs),
      if m.rowStatus == Some("ARCHIVED") then Archived else Normal)
  }

  /** The JSON the memo routes send for `getMemoWithDetails`: it has no `pinned` or `parent` key. */
  function RestOf(d: MemoDetails): RestMemo {
    RestMemo(d.id, Some(d.uid), d.creatorId, Some(d.content), Some(d.visibility), Some(d.tags), None,
             Some(d.resourceIdList), None, Some(d.createdTs), Some(d.updatedTs), Some(d.rowStatus))
  }

  /**
   * A memo the backend served keeps its id, creator, content, tags and
   * resources through the reshaping, its snippet is a prefix of its content,
   * and it shows as archived exactly when its row is.
   */
  lemma ShapedDetails(d: MemoDetails, nowMs: int)
    ensures var f := ShapeMemo(RestOf(d), nowMs);
      && f.name == "memos/" + IntToDecimal(d.id) && f.creator == "users/" + IntToDecimal(d.creatorId)
      && f.content == d.content && f.tags == d.tags && f.resources == d.resourceIdList
      && StartsWith(f.content, f.snippet) && Utf16Length(f.snippet) <= SNIPPET_LENGTH
      && (Utf16Length(d.content) <= SNIPPET_LENGTH ==> f.snippet == d.content)
      && !f.pinned && f.parent == ""
      && (f.state == Archived <==> d.rowStatus == RowStatusName(Archived))
  {
    var f := ShapeMemo(RestOf(d), nowMs);
    if d.content != "" {
      var p := Utf16Prefix(d.content, SNIPPET_LENGTH);
      assert StartsWith(d.content, p);
    }
    assert RowStatusName(Archived) == "ARCHIVED";
    assert RowStatusName(Normal) != "ARCHIVED";
  }

  /** The body of `GET /api/memo` as the client receives it. */
  datatype ListBody = JsonArray(items: seq<RestMemo>) | NotAnArray

  datatype MemoPage = MemoPage(memos: seq<FrontMemo>, nextPageToken: string)

  /** `getMemos`: every element reshaped in order, nothing when the body is not an array; never a next page. */
  function GetMemos(body: ListBody, nowMs: int): (r: MemoPage)
    ensures r.nextPageToken == ""
    ensures body.NotAnArray? ==> r.memos == []
    ensures body.JsonArray? ==> (|r.memos| == |body.items|
      && forall k :: 0 <= k < |r.memos| ==> r.memos[k] == ShapeMemo(body.items[k], nowMs))
  {
    match body
    case NotAnArray => MemoPage([], "")
    case JsonArray(items) => MemoPage(seq(|items|, k requires 0 <= k < |items| => ShapeMemo(items[k], nowMs)), "")
  }

  /** The local defaults of the three workspace settings, with `{}` for every other key. */
  datatype DefaultSetting =
    | GeneralDefaults(disallowUserRegistration: bool, disallowPasswordAuth: bool, title: string,
                      description: string, logoUrl: string, locale: string, appearance: string,
                      weekStartDayOffset: int)
    | StorageDefaults(storageType: string, filepathTemplate: string, uploadSizeLimitMb: int)
    | MemoRelatedDefaults(disallowPublicVisibility: bool, contentLengthLimit: int, defaultVisibility: string)
    | EmptyObject
    | InheritedValue(key: string)

  predicate IsDefaultKey(key: string) {
    key == "GENERAL" || key == "STORAGE" || key == "MEMO_RELATED"
  }

  /** The own entries of the `defaults` literal. */
  function OwnDefault(key: string): (s: DefaultSetting)
    requires IsDefaultKey(key)
    ensures key == "GENERAL" <==> s.GeneralDefaults?
    ensures key == "STORAGE" <==> s.StorageDefaults?
    ensures key == "MEMO_RELATED" <==> s.MemoRelatedDefaults?
  {
    if key == "GENERAL" then
      GeneralDefaults(false, false, "Memos", "A privacy-first, lightweight note-taking service", "", "en", "auto", 0)
    else if key == "STORAGE" then StorageDefaults("DATABASE", "{{filename}}", 32)
    else MemoRelatedDefaults(false, 1000, PRIVATE)
  }

  /**
   * `defaults[key] || {}` as written: a key naming an `Object.prototype`
   * member finds that (truthy) inherited value instead of falling back.
   */
  function GetDefaultSettingAsWritten(key: string): (s: DefaultSetting)
    ensures IsDefaultKey(key) ==> s == OwnDefault(key)
    ensures s.InheritedValue? <==> IsPrototypeMember(key)
  {
    if IsDefaultKey(key) then OwnDefault(key)
    else if IsPrototypeMember(key) then InheritedValue(key)
    else EmptyObject
  }

  /** `getDefaultSetting` as meant: the entry of the three keys, `{}` for every other key. */
  function GetDefaultSetting(key: string): (s: DefaultSetting)
    ensures IsDefaultKey(key) ==> s == OwnDefault(key)
    ensures !IsDefaultKey(key) <==> s == EmptyObject
    ensures !s.InheritedValue?
  {
    if IsDefaultKey(key) then OwnDefault(key) else EmptyObject
  }

  /** The discrepancy: `constructor` and its kind answer with an inherited member, not `{}`. */
  lemma PrototypeKeyDefault(key: string)
    requires IsPrototypeMember(key)
    ensures GetDefaultSettingAsWritten(key) == InheritedValue(key)
    ensures GetDefaultSetting(key) == EmptyObject
  {
  }

  /** Both readings agree on every key that is not a prototype member. */
  lemma DefaultSettingAgrees(key: string)
    requires !IsPrototypeMember(key)
    ensures GetDefaultSettingAsWritten(key) == GetDefaultSetting(key)
  {
  }

  datatype ClientWorkspaceSetting = ClientWorkspaceSetting(name: string, value: DefaultSetting)

  const WORKSPACE_PREFIX: string := "workspace/"

  /**
   * `getWorkspaceSetting(key)`: the default under the name `workspace/<key>`,
   * from which removing the first `workspace/` gives the key back.
   */
  function GetWorkspaceSetting(key: string): (r: ClientWorkspaceSetting)
    ensures r.name == WORKSPACE_PREFIX + key
    ensures ReplaceFirst(r.name, WORKSPACE_PREFIX, "") == key
    ensures r.value == GetDefaultSetting(key)
  {
    ReplaceFirstOfPrefix(WORKSPACE_PREFIX, key);
    ClientWorkspaceSetting(WORKSPACE_PREFIX + key, GetDefaultSetting(key))
  }

  const ACCESS_TOKEN: string := "accessToken"

  /** The `Authorization` header `request` adds: a bearer header when a non-empty token is stored. */
  function AuthorizationFor(storage: map<string, string>): (h: Option<string>)
    ensures h.Some? <==> ACCESS_TOKEN in storage && storage[ACCESS_TOKEN] != ""
    ensures h.Some? ==> h.value == AuthMiddleware.BEARER + storage[ACCESS_TOKEN]
  {
    if ACCESS_TOKEN in storage && storage[ACCESS_TOKEN] != "" then Some(AuthMiddleware.BEARER + storage[ACCESS_TOKEN])
    else None
  }

  /** The header the client sends after storing a token is one the middleware reads that token back from. */
  lemma StoredTokenReachesMiddleware(storage: map<string, string>, token: string)
    requires token != ""
    ensures AuthMiddleware.BearerToken(AuthorizationFor(storage[ACCESS_TOKEN := token])) == Some(token)
  {
    var h := AuthMiddleware.BEARER + token;
    assert h[..|AuthMiddleware.BEARER|] == AuthMiddleware.BEARER;
    var t := AuthMiddleware.BearerToken(Some(h));
    assert t.Some?;
    assert h == AuthMiddleware.BEARER + t.value;
    assert t.value == h[|AuthMiddleware.BEARER|..];
  }

  /** The body of `POST /api/auth/signin` as the client sees it. */
  datatype SignInReply = SignInReply(accessToken: Option<string>, user: Option<PublicUser>)

  /** The client object, with the browser's `localStorage` as a field. */
  class Client {
    var baseUrl: string
    var storage: map<string, string>

    constructor (baseUrl: string, storage: map<string, string>)
      ensures this.baseUrl == baseUrl && this.storage == storage
    {
      this.baseUrl := baseUrl;
      this.storage := storage;
    }

    /** The header the next request carries. */
    function Authorization(): Option<string>
      reads this
    {
      AuthorizationFor(storage)
    }

    /**
     * `signIn` once the request has answered `response`: the access token is
     * stored when the response carries a non-empty one, and nothing is
     * stored otherwise; the response is returned as it came.
     */
    method SignIn(response: SignInReply) returns (r: SignInReply)
      modifies this
      ensures r == response && baseUrl == old(baseUrl)
      ensures Truthy(response.accessToken) ==> storage == old(storage)[ACCESS_TOKEN := response.accessToken.value]
      ensures !Truthy(response.accessToken) ==> storage == old(storage)
      ensures Truthy(response.accessToken) ==>
        AuthMiddleware.BearerToken(Authorization()) == response.accessToken
    {
      if Truthy(response.accessToken) {
        storage := storage[ACCESS_TOKEN := response.accessToken.value];
        StoredTokenReachesMiddleware(old(storage), response.accessToken.value);
      }
      r := response;
    }
  }
}
