/**
 * The user handlers of backend/src/routes/user.ts over the in-memory tables:
 * the caller's own profile, the HOST-only user list, a public profile, the
 * profile patch, and the get-or-create and patch handlers of a user's
 * setting row.
 *
 * The caller is the `user` slot the authentication middleware filled, None
 * when it is empty; the clock is a parameter. A request body field that is
 * `undefined` is None.
 */
module UserRoutes {
  import opened Wrappers
  import opened Types
  import opened Text
  import opened Schema
  import opened Sorting

  /** `SELECT * FROM user WHERE uid = ? AND row_status = 'NORMAL'`, first row. */
  function NormalUserByUid(t: Tables, uid: string): (r: Option<nat>)
    requires Valid(t)
    ensures r.Some? ==> r.value in t.users && t.users[r.value].uid == uid && IsNormal(t.users[r.value])
    ensures r.None? <==> forall id :: id in t.users ==> !(t.users[id].uid == uid && IsNormal(t.users[id]))
  {
    FirstWhere(t.users, (u: UserRow) => u.uid == uid && IsNormal(u), 0, t.nextUserId)
  }

  /**
   * `GET /me`: the caller's own NORMAL user row without its password hash;
   * an archived account is "not found".
   */
  function Me(t: Tables, caller: Option<Claims>): (r: Response<PublicUser>)
    requires Valid(t)
    ensures caller.None? ==> r == Fail(401, "Unauthorized")
    ensures caller.Some? ==>
      (r.Ok? <==> exists id :: id in t.users && t.users[id].uid == caller.value.sub && IsNormal(t.users[id]))
    ensures caller.Some? && r.Fail? ==> r == Fail(404, "User not found")
    ensures r.Ok? ==> exists id :: id in t.users && t.users[id].uid == caller.value.sub && IsNormal(t.users[id])
                                   && r.value == Sanitize(t.users[id])
  {
    if caller.None? then Fail(401, "Unauthorized")
    else match NormalUserByUid(t, caller.value.sub)
      case None => Fail(404, "User not found")
      case Some(id) => Ok(Sanitize(t.users[id]))
  }

  /** `ORDER BY created_ts DESC`. */
  function CreatedLater(a: UserRow, b: UserRow): bool {
    a.createdTs > b.createdTs
  }

  /** The rows `GET /` selects: users of the given row status, newest first, then the window. */
  function ListedUsers(t: Tables, status: string, limit: int, offset: int): seq<UserRow>
    requires Valid(t)
  {
    var ids := IdsWhere(t.users, (u: UserRow) => RowStatusName(u.rowStatus) == status, 0, t.nextUserId);
    Window(Sort(RowsOf(t.users, ids), CreatedLater), limit, offset)
  }

  /** The selected columns of every row: all but the password hash. */
  function SanitizeAll(rows: seq<UserRow>): (r: seq<PublicUser>)
    ensures |r| == |rows| && forall i :: 0 <= i < |rows| ==> r[i] == Sanitize(rows[i])
  {
    if |rows| == 0 then [] else [Sanitize(rows[0])] + SanitizeAll(rows[1..])
  }

  /**
   * `GET /`: HOST callers only. The row status defaults to NORMAL, a page to
   * 50 rows from the start; a limit or offset that `parseInt` reads as NaN
   * is bound as NULL, which SQLite refuses, and the handler answers 500.
   */
  function ListUsers(t: Tables, caller: Option<Claims>, rowStatus: Option<string>,
                     limit: Option<string>, offset: Option<string>): (r: Response<seq<PublicUser>>)
    requires Valid(t)
    ensures caller.None? || caller.value.role != Host ==> r == Fail(403, "Forbidden")
    ensures caller.Some? && caller.value.role == Host ==>
      var lim, off := ParseInt(OrElse(limit, "50")), ParseInt(OrElse(offset, "0"));
      && (lim.None? || off.None? ==> r == Fail(500, "Internal server error"))
      && (lim.Some? && off.Some? ==>
            r == Ok(SanitizeAll(ListedUsers(t, OrElse(rowStatus, "NORMAL"), lim.value, off.value))))
  {
    if caller.None? || caller.value.role != Host then Fail(403, "Forbidden")
    else
      var lim, off := ParseInt(OrElse(limit, "50")), ParseInt(OrElse(offset, "0"));
      if lim.None? || off.None? then Fail(500, "Internal server error")
      else Ok(SanitizeAll(ListedUsers(t, OrElse(rowStatus, "NORMAL"), lim.value, off.value)))
  }

  /** Every listed user is a stored row of the requested status. */
  lemma ListedUsersSound(t: Tables, status: string, limit: int, offset: int)
    requires Valid(t)
    ensures var r := ListedUsers(t, status, limit, offset);
      forall i :: 0 <= i < |r| ==> r[i].id in t.users && t.users[r[i].id] == r[i] && RowStatusName(r[i].rowStatus) == status
  {
    var p := (u: UserRow) => RowStatusName(u.rowStatus) == status;
    var r := ListedUsers(t, status, limit, offset);
    SelectedRowsSound(t.users, p, 0, t.nextUserId, CreatedLater, limit, offset);
    forall i | 0 <= i < |r|
      ensures r[i].id in t.users && t.users[r[i].id] == r[i] && RowStatusName(r[i].rowStatus) == status
    {
      assert r[i] in r;
      var id :| id in t.users && t.users[id] == r[i] && p(r[i]);
    }
  }

  /** The user list comes newest first and holds at most `limit` rows. */
  lemma ListedUsersNewestFirst(t: Tables, status: string, limit: int, offset: int)
    requires Valid(t)
    ensures var r := ListedUsers(t, status, limit, offset);
      && (forall i :: 0 <= i < |r| - 1 ==> r[i].createdTs >= r[i + 1].createdTs)
      && (limit >= 0 ==> |r| <= limit)
  {
    var ids := IdsWhere(t.users, (u: UserRow) => RowStatusName(u.rowStatus) == status, 0, t.nextUserId);
    var sorted := Sort(RowsOf(t.users, ids), CreatedLater);
    assert Asymmetric(CreatedLater);
    SortSorted(RowsOf(t.users, ids), CreatedLater);
  }

  /** The columns `GET /:id` selects. */
  datatype UserCard = UserCard(id: nat, uid: string, username: string, role: Role, avatarUrl: Option<string>, createdTs: int)

  function Card(u: UserRow): UserCard {
    UserCard(u.id, u.uid, u.username, u.role, u.avatarUrl, u.createdTs)
  }

  /**
   * `GET /:id`: the public columns of the NORMAL user whose id the path
   * names. The path text is bound as it is; it names the id it spells in
   * decimal.
   */
  function GetUser(t: Tables, idParam: string): (r: Response<UserCard>)
    requires Valid(t)
    ensures r.Ok? <==> exists id :: id in t.users && IntToDecimal(id) == idParam && IsNormal(t.users[id])
    ensures r.Fail? ==> r == Fail(404, "User not found")
    ensures r.Ok? ==> exists id :: id in t.users && IntToDecimal(id) == idParam && IsNormal(t.users[id])
                                   && r.value == Card(t.users[id])
  {
    match FirstWhere(t.users, (u: UserRow) => IntToDecimal(u.id) == idParam && IsNormal(u), 0, t.nextUserId)
    case None => Fail(404, "User not found")
    case Some(id) => Ok(Card(t.users[id]))
  }

  /** `SELECT * FROM user WHERE id = ? AND row_status = 'NORMAL'` with the path id read by `parseInt`. */
  function NormalUserById(t: Tables, idParam: string): (r: Option<nat>)
    ensures r.Some? <==> ParseInt(idParam).Some? && ParseInt(idParam).value >= 0
                         && ParseInt(idParam).value in t.users && IsNormal(t.users[ParseInt(idParam).value])
    ensures r.Some? ==> r.value == ParseInt(idParam).value
  {
    match ParseInt(idParam)
    case Some(n) => if n >= 0 && n in t.users && IsNormal(t.users[n]) then Some(n) else None
    case None => None
  }

  /** The check of the patch and setting handlers: the caller is the target user, or a HOST. */
  predicate MayManage(caller: Claims, target: UserRow) {
    target.uid == caller.sub || caller.role == Host
  }

  /**
   * The guard the patch and setting handlers share: 401 without a caller,
   * 404 without a NORMAL target, 403 when the caller may not manage it;
   * otherwise the target's id.
   */
  function TargetUser(t: Tables, idParam: string, caller: Option<Claims>): (r: Response<nat>)
    ensures caller.None? ==> r == Fail(401, "Unauthorized")
    ensures caller.Some? && NormalUserById(t, idParam).None? ==> r == Fail(404, "User not found")
    ensures (caller.Some? && NormalUserById(t, idParam).Some?
             && !MayManage(caller.value, t.users[NormalUserById(t, idParam).value])) ==> r == Fail(403, "Forbidden")
    ensures r.Ok? <==> caller.Some? && NormalUserById(t, idParam).Some?
                       && MayManage(caller.value, t.users[NormalUserById(t, idParam).value])
    ensures r.Ok? ==> r.value in t.users && IsNormal(t.users[r.value]) && Some(r.value as int) == ParseInt(idParam)
  {
    if caller.None? then Fail(401, "Unauthorized")
    else match NormalUserById(t, idParam)
      case None => Fail(404, "User not found")
      case Some(id) => if MayManage(caller.value, t.users[id]) then Ok(id) else Fail(403, "Forbidden")
  }

  /** The profile fields of a `PATCH /:id` body; None is `undefined`. */
  datatype UserPatch = UserPatch(
    username: Option<string>, nickname: Option<string>, email: Option<string>,
    avatarUrl: Option<string>, description: Option<string>)

  predicate AnySupplied(p: UserPatch) {
    p.username.Some? || p.nickname.Some? || p.email.Some? || p.avatarUrl.Some? || p.description.Some?
  }

  /** One `column = ?` of the UPDATE statement `PATCH /:id` builds. */
  datatype UserAssignment =
    | SetUsername(username: string) | SetNickname(nickname: string) | SetEmail(email: string)
    | SetAvatarUrl(avatarUrl: string) | SetDescription(description: string) | SetUserUpdatedTs(ts: int)

  function AssignUser(u: UserRow, a: UserAssignment): UserRow {
    match a
    case SetUsername(v) => u.(username := v)
    case SetNickname(v) => u.(nickname := Some(v))
    case SetEmail(v) => u.(email := Some(v))
    case SetAvatarUrl(v) => u.(avatarUrl := Some(v))
    case SetDescription(v) => u.(description := Some(v))
    case SetUserUpdatedTs(ts) => u.(updatedTs := ts)
  }

  /** `UPDATE user SET ... WHERE id = ?` applied to the row. */
  function AssignAllUser(u: UserRow, updates: seq<UserAssignment>): UserRow
    decreases |updates|
  {
    if |updates| == 0 then u else AssignAllUser(AssignUser(u, updates[0]), updates[1..])
  }

  /** Replaces an optional column when a value is supplied. */
  function Overwrite(old_: Option<string>, supplied: Option<string>): (r: Option<string>)
    ensures supplied.Some? ==> r == supplied
    ensures supplied.None? ==> r == old_
  {
    if supplied.Some? then supplied else old_
  }

  /**
   * The user row after `PATCH /:id`: the supplied profile fields replace
   * the stored ones and `updated_ts` becomes `now`, but only when at least
   * one was supplied; the uid, role, password hash, row status and creation
   * time never change.
   */
  function PatchedUser(u: UserRow, p: UserPatch, now: int): (r: UserRow)
    ensures r.id == u.id && r.uid == u.uid && r.role == u.role && r.passwordHash == u.passwordHash
    ensures r.rowStatus == u.rowStatus && r.createdTs == u.createdTs
    ensures r.username == (if p.username.Some? then p.username.value else u.username)
    ensures r.nickname == (if p.nickname.Some? then p.nickname else u.nickname)
    ensures r.email == (if p.email.Some? then p.email else u.email)
    ensures r.avatarUrl == (if p.avatarUrl.Some? then p.avatarUrl else u.avatarUrl)
    ensures r.description == (if p.description.Some? then p.description else u.description)
    ensures r.updatedTs == (if AnySupplied(p) then now else u.updatedTs)
    ensures !AnySupplied(p) ==> r == u
  {
    if AnySupplied(p) then
      u.(username := p.username.GetOr(u.username), nickname := Overwrite(u.nickname, p.nickname),
         email := Overwrite(u.email, p.email), avatarUrl := Overwrite(u.avatarUrl, p.avatarUrl),
         description := Overwrite(u.description, p.description), updatedTs := now)
    else u
  }

  lemma {:induction false} AssignAllUserSnoc(u: UserRow, updates: seq<UserAssignment>, a: UserAssignment)
    ensures AssignAllUser(u, updates + [a]) == AssignUser(AssignAllUser(u, updates), a)
    decreases |updates|
  {
    if |updates| == 0 {
      assert updates + [a] == [a];
    } else {
      assert (updates + [a])[1..] == updates[1..] + [a];
      AssignAllUserSnoc(AssignUser(u, updates[0]), updates[1..], a);
    }
  }

  /** The supplied profile fields written into the row, `updated_ts` aside. */
  function UserFields(u: UserRow, p: UserPatch): UserRow {
    u.(username := p.username.GetOr(u.username), nickname := Overwrite(u.nickname, p.nickname),
       email := Overwrite(u.email, p.email), avatarUrl := Overwrite(u.avatarUrl, p.avatarUrl),
       description := Overwrite(u.description, p.description))
  }

  /** The patch an assignment of a profile column writes, added to `w`. */
  function Recorded(w: UserPatch, a: UserAssignment): UserPatch {
    match a
    case SetUsername(v) => w.(username := Some(v))
    case SetNickname(v) => w.(nickname := Some(v))
    case SetEmail(v) => w.(email := Some(v))
    case SetAvatarUrl(v) => w.(avatarUrl := Some(v))
    case SetDescription(v) => w.(description := Some(v))
    case SetUserUpdatedTs(_) => w
  }

  /** The assignments so far write exactly the fields of `w`. */
  ghost predicate Describes(updates: seq<UserAssignment>, w: UserPatch) {
    forall u :: AssignAllUser(u, updates) == UserFields(u, w)
  }

  lemma DescribesSnoc(updates: seq<UserAssignment>, w: UserPatch, a: UserAssignment)
    requires Describes(updates, w) && !a.SetUserUpdatedTs?
    ensures Describes(updates + [a], Recorded(w, a))
  {
    forall u ensures AssignAllUser(u, updates + [a]) == UserFields(u, Recorded(w, a)) {
      AssignAllUserSnoc(u, updates, a);
    }
  }

  /** The `updates` list of `PATCH /:id`, built column by column, with `updated_ts` always last. */
  method BuildUserUpdates(p: UserPatch, now: int) returns (updates: seq<UserAssignment>)
    ensures |updates| > 1 <==> AnySupplied(p)
    ensures AnySupplied(p) ==> forall u :: AssignAllUser(u, updates) == PatchedUser(u, p, now)
  {
    updates := [];
    ghost var written := UserPatch(None, None, None, None, None);
    assert Describes(updates, written);
    if p.username.Some? {
      DescribesSnoc(updates, written, SetUsername(p.username.value));
      updates, written := updates + [SetUsername(p.username.value)], Recorded(written, SetUsername(p.username.value));
    }
    if p.nickname.Some? {
      DescribesSnoc(updates, written, SetNickname(p.nickname.value));
      updates, written := updates + [SetNickname(p.nickname.value)], Recorded(written, SetNickname(p.nickname.value));
    }
    if p.email.Some? {
      DescribesSnoc(updates, written, SetEmail(p.email.value));
      updates, written := updates + [SetEmail(p.email.value)], Recorded(written, SetEmail(p.email.value));
    }
    if p.avatarUrl.Some? {
      DescribesSnoc(updates, written, SetAvatarUrl(p.avatarUrl.value));
      updates, written := updates + [SetAvatarUrl(p.avatarUrl.value)], Recorded(written, SetAvatarUrl(p.avatarUrl.value));
    }
    if p.description.Some? {
      DescribesSnoc(updates, written, SetDescription(p.description.value));
      updates, written := updates + [SetDescription(p.description.value)], Recorded(written, SetDescription(p.description.value));
    }
    assert written == p;
    forall u ensures AssignAllUser(u, updates + [SetUserUpdatedTs(now)]) == UserFields(u, p).(updatedTs := now) {
      AssignAllUserSnoc(u, updates, SetUserUpdatedTs(now));
    }
    updates := updates + [SetUserUpdatedTs(now)];
  }

  /**
   * `PATCH /:id`: after the shared guard, the supplied profile fields are
   * written, and the row reads back without its password hash.
   */
  method PatchUser(db: Database, idParam: string, caller: Option<Claims>, p: UserPatch, now: int)
    returns (reply: Response<PublicUser>)
    requires Valid(db.State())
    modifies db
    ensures Valid(db.State())
    ensures var g := old(TargetUser(db.State(), idParam, caller));
      g.Fail? ==> reply == Fail(g.status, g.message) && db.State() == old(db.State())
    ensures old(TargetUser(db.State(), idParam, caller)).Ok? ==>
      && var id := old(TargetUser(db.State(), idParam, caller)).value;
      && db.State() == old(db.State()).(users := old(db.users)[id := PatchedUser(old(db.users)[id], p, now)])
      && reply == Ok(Sanitize(db.users[id]))
  {
    var target := TargetUser(db.State(), idParam, caller);
    if target.Fail? {
      return Fail(target.status, target.message);
    }
    StoreUserPatch(db, target.value, p, now);
    reply := Ok(Sanitize(db.users[target.value]));
  }

  /** The `UPDATE user SET ... WHERE id = ?` of `PATCH /:id`, run only when some column was supplied. */
  method StoreUserPatch(db: Database, userId: nat, p: UserPatch, now: int)
    requires Valid(db.State()) && userId in db.users
    modifies db
    ensures Valid(db.State())
    ensures db.State() == old(db.State()).(users := old(db.users)[userId := PatchedUser(old(db.users)[userId], p, now)])
  {
    var updates := BuildUserUpdates(p, now);
    if |updates| > 1 {
      db.users := db.users[userId := AssignAllUser(db.users[userId], updates)];
    } else {
      assert db.users == db.users[userId := PatchedUser(db.users[userId], p, now)];
    }
  }

  /** A patched user is still the NORMAL user the same path id names, so the same caller may patch it again. */
  lemma PatchedUserStillTarget(t: Tables, idParam: string, caller: Option<Claims>, p: UserPatch, now: int)
    requires Valid(t) && TargetUser(t, idParam, caller).Ok?
    ensures var id := TargetUser(t, idParam, caller).value;
      var t' := t.(users := t.users[id := PatchedUser(t.users[id], p, now)]);
      && Valid(t')
      && TargetUser(t', idParam, caller) == TargetUser(t, idParam, caller)
  {
  }

  /** A profile patch keeps every account's uid and row status, so `GET /me` still finds the same accounts. */
  lemma PatchedUserKeepsMe(t: Tables, id: nat, caller: Claims, p: UserPatch, now: int)
    requires Valid(t) && id in t.users
    ensures var t' := t.(users := t.users[id := PatchedUser(t.users[id], p, now)]);
      Valid(t') && Me(t', Some(caller)).Ok? == Me(t, Some(caller)).Ok?
  {
    var t' := t.(users := t.users[id := PatchedUser(t.users[id], p, now)]);
    assert forall j :: j in t'.users <==> j in t.users;
    assert forall j :: j in t.users ==> t'.users[j].uid == t.users[j].uid && t'.users[j].rowStatus == t.users[j].rowStatus;
  }

  /** The `name` of a setting reply. */
  function SettingName(userId: int): (name: string)
    ensures name == "users/" + IntToDecimal(userId) + "/setting"
  {
    "users/" + IntToDecimal(userId) + "/setting"
  }

  /** What the setting handlers answer. */
  datatype SettingView = SettingView(name: string, locale: string, appearance: string, memoVisibility: string)

  function ViewOf(s: SettingRow): SettingView {
    SettingView(SettingName(s.userId), s.locale, s.appearance, s.memoVisibility)
  }

  /** The row both handlers insert when a user has none and nothing is supplied. */
  function DefaultSetting(userId: int, now: int): SettingRow {
    SettingRow(userId, "zh", "system", PRIVATE, now, now)
  }

  /** The setting rows after `GET /:id/setting`: a missing row is created with the defaults. */
  function SettingsAfterGet(settings: map<int, SettingRow>, userId: int, now: int): (r: map<int, SettingRow>)
    ensures userId in r
    ensures userId in settings ==> r == settings
    ensures userId !in settings ==> r == settings[userId := DefaultSetting(userId, now)]
  {
    if userId in settings then settings else settings[userId := DefaultSetting(userId, now)]
  }

  /**
   * `GET /:id/setting`: after the shared guard, the target's setting row,
   * created with `zh`/`system`/`PRIVATE` when there is none.
   */
  method GetUserSetting(db: Database, idParam: string, caller: Option<Claims>, now: int)
    returns (reply: Response<SettingView>)
    requires Valid(db.State())
    modifies db
    ensures Valid(db.State())
    ensures var g := old(TargetUser(db.State(), idParam, caller));
      g.Fail? ==> reply == Fail(g.status, g.message) && db.State() == old(db.State())
    ensures old(TargetUser(db.State(), idParam, caller)).Ok? ==>
      && var id := old(TargetUser(db.State(), idParam, caller)).value;
      && db.State() == old(db.State()).(settings := SettingsAfterGet(old(db.settings), id, now))
      && reply == Ok(ViewOf(db.settings[id]))
  {
    var target := TargetUser(db.State(), idParam, caller);
    if target.Fail? {
      return Fail(target.status, target.message);
    }
    var userId := target.value;
    if userId !in db.settings {
      db.settings := db.settings[userId := DefaultSetting(userId, now)];
    }
    reply := Ok(ViewOf(db.settings[userId]));
  }

  /**
   * Get-or-create: the first read of a missing row answers the defaults
   * under the user's setting name; a second read, at any time, changes
   * nothing and answers the same.
   */
  lemma SettingReadTwice(settings: map<int, SettingRow>, userId: int, now: int, later: int)
    ensures var once := SettingsAfterGet(settings, userId, now);
      && SettingsAfterGet(once, userId, later) == once
      && ViewOf(SettingsAfterGet(once, userId, later)[userId]) == ViewOf(once[userId])
      && (userId !in settings ==>
            ViewOf(once[userId]) == SettingView("users/" + IntToDecimal(userId) + "/setting", "zh", "system", PRIVATE))
  {
  }

  /** The fields of a `PATCH /:id/setting` body; None is `undefined`. */
  datatype SettingPatch = SettingPatch(locale: Option<string>, appearance: Option<string>, memoVisibility: Option<string>)

  predicate AnySettingSupplied(p: SettingPatch) {
    p.locale.Some? || p.appearance.Some? || p.memoVisibility.Some?
  }

  /** One `column = ?` of the UPDATE statement on `user_setting`. */
  datatype SettingAssignment =
    SetLocale(locale: string) | SetAppearance(appearance: string) | SetMemoVisibility(memoVisibility: string) | SetSettingUpdatedTs(ts: int)

  function AssignSetting(s: SettingRow, a: SettingAssignment): SettingRow {
    match a
    case SetLocale(v) => s.(locale := v)
    case SetAppearance(v) => s.(appearance := v)
    case SetMemoVisibility(v) => s.(memoVisibility := v)
    case SetSettingUpdatedTs(ts) => s.(updatedTs := ts)
  }

  function AssignAllSetting(s: SettingRow, updates: seq<SettingAssignment>): SettingRow
    decreases |updates|
  {
    if |updates| == 0 then s else AssignAllSetting(AssignSetting(s, updates[0]), updates[1..])
  }

  lemma {:induction false} AssignAllSettingSnoc(s: SettingRow, updates: seq<SettingAssignment>, a: SettingAssignment)
    ensures AssignAllSetting(s, updates + [a]) == AssignSetting(AssignAllSetting(s, updates), a)
    decreases |updates|
  {
    if |updates| == 0 {
      assert updates + [a] == [a];
    } else {
      assert (updates + [a])[1..] == updates[1..] + [a];
      AssignAllSettingSnoc(AssignSetting(s, updates[0]), updates[1..], a);
    }
  }

  /**
   * An existing setting row after `PATCH /:id/setting`: the supplied fields
   * replace the stored ones and `updated_ts` becomes `now` only when
   * something was supplied.
   */
  function PatchedSetting(s: SettingRow, p: SettingPatch, now: int): (r: SettingRow)
    ensures r.userId == s.userId && r.createdTs == s.createdTs
    ensures r.locale == (if p.locale.Some? then p.locale.value else s.locale)
    ensures r.appearance == (if p.appearance.Some? then p.appearance.value else s.appearance)
    ensures r.memoVisibility == (if p.memoVisibility.Some? then p.memoVisibility.value else s.memoVisibility)
    ensures r.updatedTs == (if AnySettingSupplied(p) then now else s.updatedTs)
    ensures !AnySettingSupplied(p) ==> r == s
  {
    if AnySettingSupplied(p) then
      s.(locale := p.locale.GetOr(s.locale), appearance := p.appearance.GetOr(s.appearance),
         memoVisibility := p.memoVisibility.GetOr(s.memoVisibility), updatedTs := now)
    else s
  }

  /** The supplied setting fields written into the row, `updated_ts` aside. */
  function SettingFields(s: SettingRow, p: SettingPatch): SettingRow {
    s.(locale := p.locale.GetOr(s.locale), appearance := p.appearance.GetOr(s.appearance),
       memoVisibility := p.memoVisibility.GetOr(s.memoVisibility))
  }

  /** The `updates` list for an existing setting row; `updated_ts` is added only after some field. */
  method BuildSettingUpdates(p: SettingPatch, now: int) returns (updates: seq<SettingAssignment>)
    ensures |updates| > 0 <==> AnySettingSupplied(p)
    ensures forall s :: AssignAllSetting(s, updates) == PatchedSetting(s, p, now)
  {
    updates := [];
    ghost var written := SettingPatch(None, None, None);
    if p.locale.Some? {
      forall s ensures AssignAllSetting(s, updates + [SetLocale(p.locale.value)]) == SettingFields(s, written.(locale := p.locale)) {
        AssignAllSettingSnoc(s, updates, SetLocale(p.locale.value));
      }
      updates, written := updates + [SetLocale(p.locale.value)], written.(locale := p.locale);
    }
    if p.appearance.Some? {
      forall s ensures AssignAllSetting(s, updates + [SetAppearance(p.appearance.value)]) == SettingFields(s, written.(appearance := p.appearance)) {
        AssignAllSettingSnoc(s, updates, SetAppearance(p.appearance.value));
      }
      updates, written := updates + [SetAppearance(p.appearance.value)], written.(appearance := p.appearance);
    }
    if p.memoVisibility.Some? {
      forall s ensures AssignAllSetting(s, updates + [SetMemoVisibility(p.memoVisibility.value)]) == SettingFields(s, written.(memoVisibility := p.memoVisibility)) {
        AssignAllSettingSnoc(s, updates, SetMemoVisibility(p.memoVisibility.value));
      }
      updates, written := updates + [SetMemoVisibility(p.memoVisibility.value)], written.(memoVisibility := p.memoVisibility);
    }
    assert written == p;
    if |updates| > 0 {
      forall s ensures AssignAllSetting(s, updates + [SetSettingUpdatedTs(now)]) == SettingFields(s, p).(updatedTs := now) {
        AssignAllSettingSnoc(s, updates, SetSettingUpdatedTs(now));
      }
      updates := updates + [SetSettingUpdatedTs(now)];
    }
  }

  /** The row `PATCH /:id/setting` inserts when the user has none: falsy fields take the defaults. */
  function InsertedSetting(userId: int, p: SettingPatch, now: int): (r: SettingRow)
    ensures r.userId == userId && r.createdTs == now && r.updatedTs == now
    ensures Truthy(p.locale) ==> r.locale == p.locale.value
    ensures Truthy(p.appearance) ==> r.appearance == p.appearance.value
    ensures Truthy(p.memoVisibility) ==> r.memoVisibility == p.memoVisibility.value
    ensures !Truthy(p.locale) && !Truthy(p.appearance) && !Truthy(p.memoVisibility) ==> r == DefaultSetting(userId, now)
  {
    SettingRow(userId, OrElse(p.locale, "zh"), OrElse(p.appearance, "system"), OrElse(p.memoVisibility, PRIVATE), now, now)
  }

  /**
   * `PATCH /:id/setting`: after the shared guard, an existing row takes the
   * supplied fields; a missing one is inserted with defaults for the falsy
   * ones. The reply is the row as stored.
   */
  method PatchUserSetting(db: Database, idParam: string, caller: Option<Claims>, p: SettingPatch, now: int)
    returns (reply: Response<SettingView>)
    requires Valid(db.State())
    modifies db
    ensures Valid(db.State())
    ensures var g := old(TargetUser(db.State(), idParam, caller));
      g.Fail? ==> reply == Fail(g.status, g.message) && db.State() == old(db.State())
    ensures old(TargetUser(db.State(), idParam, caller)).Ok? ==>
      && var id := old(TargetUser(db.State(), idParam, caller)).value;
      && db.State() == old(db.State()).(settings := old(db.settings)[id :=
           if id in old(db.settings) then PatchedSetting(old(db.settings)[id], p, now) else InsertedSetting(id, p, now)])
      && reply == Ok(ViewOf(db.settings[id]))
  {
    var target := TargetUser(db.State(), idParam, caller);
    if target.Fail? {
      return Fail(target.status, target.message);
    }
    StoreSetting(db, target.value, p, now);
    reply := Ok(ViewOf(db.settings[target.value]));
  }

  /** The write of `PATCH /:id/setting`: an `UPDATE` of the existing row, or an `INSERT`. */
  method StoreSetting(db: Database, userId: nat, p: SettingPatch, now: int)
    requires Valid(db.State())
    modifies db
    ensures Valid(db.State())
    ensures db.State() == old(db.State()).(settings := old(db.settings)[userId :=
      if userId in old(db.settings) then PatchedSetting(old(db.settings)[userId], p, now) else InsertedSetting(userId, p, now)])
  {
    if userId in db.settings {
      var updates := BuildSettingUpdates(p, now);
      if |updates| > 0 {
        db.settings := db.settings[userId := AssignAllSetting(db.settings[userId], updates)];
      } else {
        assert db.settings == db.settings[userId := PatchedSetting(db.settings[userId], p, now)];
      }
    } else {
      db.settings := db.settings[userId := InsertedSetting(userId, p, now)];
    }
  }

  /**
   * The two handlers agree: patching a missing row with nothing supplied
   * stores what reading it would have created, and a patch with nothing
   * supplied leaves an existing row as it was. Either way the reply's name
   * is the user's setting name.
   */
  lemma SettingHandlersAgree(settings: map<int, SettingRow>, userId: int, p: SettingPatch, now: int)
    requires forall u :: u in settings ==> settings[u].userId == u
    ensures var row := if userId in settings then PatchedSetting(settings[userId], p, now) else InsertedSetting(userId, p, now);
      && ViewOf(row).name == SettingName(userId)
      && (!AnySettingSupplied(p) ==> settings[userId := row] == SettingsAfterGet(settings, userId, now))
  {
    if userId in settings && !AnySettingSupplied(p) {
      assert settings[userId := settings[userId]] == settings;
    }
  }
}
