/**
 * The workspace handlers of backend/src/routes/workspace.ts: the profile,
 * whose owner is the earliest-created HOST; the setting lookup over a fixed
 * table of three entries; and the HOST-only POST, which echoes its input
 * and stores nothing.
 *
 * The origin of the request URL is a parameter.
 */
module WorkspaceRoutes {
  import opened Wrappers
  import opened Types
  import opened Text
  import opened Schema

  /** The oldest row of `rows`, the first of them on a tie: `ORDER BY created_ts ASC LIMIT 1`. */
  function Earliest(rows: seq<UserRow>): (r: Option<UserRow>)
    ensures r.Some? <==> |rows| > 0
    ensures r.Some? ==> r.value in rows && forall u :: u in rows ==> r.value.createdTs <= u.createdTs
  {
    if |rows| == 0 then None
    else
      var rest := Earliest(rows[1..]);
      assert forall u :: u in rows ==> u == rows[0] || u in rows[1..];
      if rest.None? || rows[0].createdTs <= rest.value.createdTs then Some(rows[0]) else rest
  }

  predicate IsHost(u: UserRow) {
    u.role == Host
  }

  /** The HOST accounts, whatever their row status, in rowid order. */
  function Hosts(t: Tables): seq<UserRow>
    requires Valid(t)
  {
    RowsOf(t.users, IdsWhere(t.users, IsHost, 0, t.nextUserId))
  }

  lemma HostsAreHosts(t: Tables)
    requires Valid(t)
    ensures forall u :: u in Hosts(t) ==> u.role == Host && u.id in t.users && t.users[u.id] == u
  {
    var ids := IdsWhere(t.users, IsHost, 0, t.nextUserId);
    var rows := Hosts(t);
    forall u | u in rows ensures u.role == Host && u.id in t.users && t.users[u.id] == u {
      var k :| 0 <= k < |rows| && rows[k] == u;
      assert t.users[ids[k]] == u;
    }
  }

  lemma AllHostsListed(t: Tables)
    requires Valid(t)
    ensures forall id :: id in t.users && t.users[id].role == Host ==> t.users[id] in Hosts(t)
  {
    var ids := IdsWhere(t.users, IsHost, 0, t.nextUserId);
    var rows := Hosts(t);
    forall id | id in t.users && t.users[id].role == Host ensures t.users[id] in rows {
      assert IsHost(t.users[id]);
      var k :| 0 <= k < |ids| && ids[k] == id;
      assert rows[k] == t.users[id];
    }
  }

  const VERSION: string := "0.24.0-cloudflare"

  /** The body of `GET /profile`. */
  datatype Profile = Profile(owner: string, version: string, mode: string, instanceUrl: string)

  /**
   * `GET /profile`: the owner is `users/` and the uid of the earliest-created
   * HOST, or empty when there is no HOST.
   */
  function GetProfile(t: Tables, origin: string): (r: Profile)
    requires Valid(t)
    ensures r.version == VERSION && r.mode == "prod" && r.instanceUrl == origin
    ensures r.owner == "" <==> forall id :: id in t.users ==> t.users[id].role != Host
    ensures r.owner != "" ==> exists id :: (id in t.users && t.users[id].role == Host
      && r.owner == "users/" + t.users[id].uid
      && forall j :: j in t.users && t.users[j].role == Host ==> t.users[id].createdTs <= t.users[j].createdTs)
  {
    HostsAreHosts(t);
    AllHostsListed(t);
    var owner := Earliest(Hosts(t));
    if owner.None? then Profile("", VERSION, "prod", origin)
    else Profile("users/" + owner.value.uid, VERSION, "prod", origin)
  }

  /** The values of the three workspace settings; the other fields of each entry are constants too. */
  datatype SettingBody =
    | GeneralSetting(disallowUserRegistration: bool, disallowPasswordAuth: bool, title: string, locale: string,
                     appearance: string, weekStartDayOffset: int)
    | MemoRelatedSetting(disallowPublicVisibility: bool, contentLengthLimit: int, reactions: seq<string>)
    | StorageSetting(storageType: string, filepathTemplate: string, uploadSizeLimitMb: int)

  datatype WorkspaceSetting = WorkspaceSetting(name: string, body: SettingBody)

  const SETTINGS_PREFIX: string := "settings/"

  /** The keys of `defaultSettings`. */
  predicate IsSettingKey(key: string) {
    key == "GENERAL" || key == "MEMO_RELATED" || key == "STORAGE"
  }

  /** `defaultSettings[key]` for an own key of the table. */
  function DefaultWorkspaceSetting(key: string): (s: WorkspaceSetting)
    requires IsSettingKey(key)
    ensures s.name == SETTINGS_PREFIX + key
    ensures key == "GENERAL" <==> s.body.GeneralSetting?
    ensures key == "MEMO_RELATED" <==> s.body.MemoRelatedSetting?
    ensures key == "STORAGE" <==> s.body.StorageSetting?
  {
    if key == "GENERAL" then
      WorkspaceSetting("settings/GENERAL", GeneralSetting(false, false, "Memos", "zh", "system", 0))
    else if key == "MEMO_RELATED" then
      WorkspaceSetting("settings/MEMO_RELATED", MemoRelatedSetting(false, 10000,
        ["\U{1F44D}", "\U{1F44E}", "\U{2764}\U{FE0F}", "\U{1F604}", "\U{1F622}", "\U{1F62E}", "\U{1F620}"]))
    else
      WorkspaceSetting("settings/STORAGE", StorageSetting("DATABASE", "{{filename}}", 32))
  }

  /** The key `GET /setting` looks up: the name with its first `settings/` removed, wherever it occurs. */
  function SettingKey(name: string): string {
    ReplaceFirst(name, SETTINGS_PREFIX, "")
  }

  /**
   * `GET /setting`: 400 without a name, the entry of the key when it is one
   * of the three, 404 otherwise.
   */
  function GetWorkspaceSetting(name: Option<string>): (r: Response<WorkspaceSetting>)
    ensures !Truthy(name) <==> r == Fail(400, "Setting name is required")
    ensures Truthy(name) && !IsSettingKey(SettingKey(name.value)) ==> r == Fail(404, "Setting not found")
    ensures r.Ok? <==> Truthy(name) && IsSettingKey(SettingKey(name.value))
    ensures r.Ok? ==> r.value.name == SETTINGS_PREFIX + SettingKey(name.value)
  {
    if !Truthy(name) then Fail(400, "Setting name is required")
    else
      var key := SettingKey(name.value);
      if IsSettingKey(key) then Ok(DefaultWorkspaceSetting(key)) else Fail(404, "Setting not found")
  }

  /** The name a setting answers with is one `GET /setting` accepts and answers with the same entry. */
  lemma WorkspaceSettingNameRoundTrip(key: string)
    requires IsSettingKey(key)
    ensures GetWorkspaceSetting(Some(SETTINGS_PREFIX + key)) == Ok(DefaultWorkspaceSetting(key))
    ensures GetWorkspaceSetting(Some(DefaultWorkspaceSetting(key).name)) == Ok(DefaultWorkspaceSetting(key))
  {
    ReplaceFirstOfPrefix(SETTINGS_PREFIX, key);
  }

  /** What `defaultSettings[key]` finds on the object literal. */
  datatype Lookup = OwnEntry(setting: WorkspaceSetting) | InheritedMember(key: string) | NoEntry

  function LookupAsWritten(key: string): (r: Lookup)
    ensures r.OwnEntry? <==> IsSettingKey(key)
    ensures r.InheritedMember? <==> IsPrototypeMember(key)
  {
    if IsSettingKey(key) then OwnEntry(DefaultWorkspaceSetting(key))
    else if IsPrototypeMember(key) then InheritedMember(key)
    else NoEntry
  }

  /**
   * `GET /setting` as written: every value the lookup finds is truthy, the
   * inherited ones included, and is answered with status 200.
   */
  function GetWorkspaceSettingAsWritten(name: Option<string>): (r: Response<Lookup>)
    ensures !Truthy(name) <==> r == Fail(400, "Setting name is required")
    ensures r.Ok? ==> r.value == LookupAsWritten(SettingKey(name.value))
    ensures r.Ok? <==> Truthy(name) && (IsSettingKey(SettingKey(name.value)) || IsPrototypeMember(SettingKey(name.value)))
  {
    if !Truthy(name) then Fail(400, "Setting name is required")
    else
      var found := LookupAsWritten(SettingKey(name.value));
      if found.NoEntry? then Fail(404, "Setting not found") else Ok(found)
  }

  /**
   * The discrepancy: a name such as `settings/constructor` is answered with
   * status 200 and a body that is no setting, where every key other than
   * the three is meant to be "not found".
   */
  lemma PrototypeKeyAnswered(key: string)
    requires IsPrototypeMember(key)
    ensures GetWorkspaceSettingAsWritten(Some(SETTINGS_PREFIX + key)) == Ok(InheritedMember(key))
    ensures GetWorkspaceSetting(Some(SETTINGS_PREFIX + key)) == Fail(404, "Setting not found")
  {
    ReplaceFirstOfPrefix(SETTINGS_PREFIX, key);
  }

  /** Both readings agree on every name except those of inherited members. */
  lemma AsWrittenAgreesOnOwnKeys(name: Option<string>)
    requires !Truthy(name) || !IsPrototypeMember(SettingKey(name.value))
    ensures GetWorkspaceSettingAsWritten(name).Fail? <==> GetWorkspaceSetting(name).Fail?
    ensures GetWorkspaceSetting(name).Fail? ==>
      GetWorkspaceSettingAsWritten(name) == Fail(GetWorkspaceSetting(name).status, GetWorkspaceSetting(name).message)
    ensures GetWorkspaceSetting(name).Ok? ==> GetWorkspaceSettingAsWritten(name) == Ok(OwnEntry(GetWorkspaceSetting(name).value))
  {
  }

  /**
   * `POST /setting`: HOST callers only; the reply echoes `body.setting` when
   * it is truthy and the whole body otherwise. Nothing is stored: the
   * handler takes no tables.
   */
  function PostWorkspaceSetting<V>(caller: Option<Claims>, body: V, setting: Option<V>, truthy: V -> bool): (r: Response<V>)
    ensures caller.None? || caller.value.role != Host <==> r == Fail(403, "Forbidden: only admin can update workspace settings")
    ensures r.Ok? ==> r.value == (if setting.Some? && truthy(setting.value) then setting.value else body)
  {
    if caller.None? || caller.value.role != Host then Fail(403, "Forbidden: only admin can update workspace settings")
    else if setting.Some? && truthy(setting.value) then Ok(setting.value)
    else Ok(body)
  }
}
