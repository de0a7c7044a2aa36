/**
 * The D1 tables the route handlers read and write, held in memory: one map
 * per table keyed by row id (for `user_setting`, by user id), the two link
 * tables `memo_resource` and `memo_tag` as sequences of rows in insertion
 * order, and the next row id of each table.
 *
 * A query's `.first()` is the matching row with the lowest id, as a table
 * scan in rowid order gives it, and a list is taken in rowid order before
 * any ORDER BY.
 */
module Schema {
  import opened Wrappers
  import opened Types
  import opened Sorting

  datatype UserRow = UserRow(
    id: nat, uid: string, username: string, nickname: Option<string>, role: Role,
    email: Option<string>, avatarUrl: Option<string>, description: Option<string>,
    passwordHash: string, rowStatus: RowStatus, createdTs: int, updatedTs: int)

  datatype MemoRow = MemoRow(
    id: nat, uid: string, creatorId: nat, content: string, visibility: string,
    rowStatus: RowStatus, createdTs: int, updatedTs: int)

  datatype ResourceRow = ResourceRow(
    id: nat, uid: string, creatorId: nat, filename: string, mimeType: string,
    size: int, externalUri: string, createdTs: int)

  datatype TagRow = TagRow(id: nat, creatorId: nat, name: string, createdTs: int)

  datatype SettingRow = SettingRow(
    userId: int, locale: string, appearance: string, memoVisibility: string,
    createdTs: int, updatedTs: int)

  /** A row of `memo_resource` (memo id, resource id) or of `memo_tag` (memo id, tag id). */
  datatype Link = Link(memoId: int, otherId: int)

  /** Every table at one moment. */
  datatype Tables = Tables(
    users: map<nat, UserRow>, memos: map<nat, MemoRow>, resources: map<nat, ResourceRow>,
    tags: map<nat, TagRow>, settings: map<int, SettingRow>,
    memoResources: seq<Link>, memoTags: seq<Link>,
    nextUserId: nat, nextMemoId: nat, nextResourceId: nat, nextTagId: nat)

  /** Next ids start at 1; row ids are positive, below the table's next id, and stored under their own key. */
  predicate Valid(t: Tables) {
    && 0 < t.nextUserId && 0 < t.nextMemoId && 0 < t.nextResourceId && 0 < t.nextTagId
    && (forall id :: id in t.users ==> 0 < id < t.nextUserId && t.users[id].id == id)
    && (forall id :: id in t.memos ==> 0 < id < t.nextMemoId && t.memos[id].id == id)
    && (forall id :: id in t.resources ==> 0 < id < t.nextResourceId && t.resources[id].id == id)
    && (forall id :: id in t.tags ==> 0 < id < t.nextTagId && t.tags[id].id == id)
    && (forall u :: u in t.settings ==> t.settings[u].userId == u)
  }

  /** The lowest id in `[lo, hi)` of a row satisfying `p`. */
  function FirstWhere<R>(m: map<nat, R>, p: R -> bool, lo: nat, hi: nat): (r: Option<nat>)
    ensures r.Some? ==> lo <= r.value < hi && r.value in m && p(m[r.value])
    ensures forall j :: j in m && lo <= j < hi && (r.None? || j < r.value) ==> !p(m[j])
    decreases hi - lo
  {
    if lo >= hi then None
    else if lo in m && p(m[lo]) then Some(lo)
    else FirstWhere(m, p, lo + 1, hi)
  }

  /** The ids in `[lo, hi)` of the rows satisfying `p`, in increasing order. */
  function IdsWhere<R>(m: map<nat, R>, p: R -> bool, lo: nat, hi: nat): (ids: seq<nat>)
    ensures forall i :: 0 <= i < |ids| ==> lo <= ids[i] < hi && ids[i] in m && p(m[ids[i]])
    ensures forall i, j :: 0 <= i < j < |ids| ==> ids[i] < ids[j]
    ensures forall j :: j in m && lo <= j < hi && p(m[j]) ==> j in ids
    decreases hi - lo
  {
    if lo >= hi then []
    else (if lo in m && p(m[lo]) then [lo] else []) + IdsWhere(m, p, lo + 1, hi)
  }

  /** Ids are distinct and in range, so there are at most as many as the range is wide. */
  lemma {:induction false} IdsWhereLength<R>(m: map<nat, R>, p: R -> bool, lo: nat, hi: nat)
    ensures |IdsWhere(m, p, lo, hi)| <= if lo < hi then hi - lo else 0
    decreases hi - lo
  {
    if lo < hi {
      IdsWhereLength(m, p, lo + 1, hi);
    }
  }

  /** Two filters that agree on every row select the same ids. */
  lemma {:induction false} IdsWhereSame<R>(m: map<nat, R>, p: R -> bool, q: R -> bool, lo: nat, hi: nat)
    requires forall r :: p(r) == q(r)
    ensures IdsWhere(m, p, lo, hi) == IdsWhere(m, q, lo, hi)
    decreases hi - lo
  {
    if lo < hi {
      IdsWhereSame(m, p, q, lo + 1, hi);
    }
  }

  /** The rows under `ids`, in that order. */
  function RowsOf<R>(m: map<nat, R>, ids: seq<nat>): (rows: seq<R>)
    requires forall i :: 0 <= i < |ids| ==> ids[i] in m
    ensures |rows| == |ids| && forall i :: 0 <= i < |ids| ==> rows[i] == m[ids[i]]
  {
    if |ids| == 0 then [] else [m[ids[0]]] + RowsOf(m, ids[1..])
  }

  /**
   * `SELECT ... WHERE ... ORDER BY ... LIMIT ? OFFSET ?`: every row of the
   * window is a stored row that meets the filter.
   */
  lemma SelectedRowsSound<R>(m: map<nat, R>, p: R -> bool, lo: nat, hi: nat, before: (R, R) -> bool, limit: int, offset: int)
    ensures forall x :: x in Window(Sort(RowsOf(m, IdsWhere(m, p, lo, hi)), before), limit, offset) ==>
      exists id :: id in m && m[id] == x && p(x)
  {
    var ids := IdsWhere(m, p, lo, hi);
    var rows := RowsOf(m, ids);
    var sorted := Sort(rows, before);
    var w := Window(sorted, limit, offset);
    forall x | x in w ensures exists id :: id in m && m[id] == x && p(x) {
      assert x in multiset(sorted);
      assert x in rows;
      var k :| 0 <= k < |rows| && rows[k] == x;
      assert m[ids[k]] == x;
    }
  }

  /**
   * With no offset and no limit below the width of the id range, every
   * stored row in the range that meets the filter is in the window.
   */
  lemma SelectedRowsComplete<R>(m: map<nat, R>, p: R -> bool, lo: nat, hi: nat, before: (R, R) -> bool,
                                limit: int, offset: int, id: nat)
    requires lo < hi && offset <= 0 && (limit < 0 || limit >= hi - lo)
    requires id in m && lo <= id < hi && p(m[id])
    ensures m[id] in Window(Sort(RowsOf(m, IdsWhere(m, p, lo, hi)), before), limit, offset)
  {
    var ids := IdsWhere(m, p, lo, hi);
    var rows := RowsOf(m, ids);
    var sorted := Sort(rows, before);
    IdsWhereLength(m, p, lo, hi);
    var k :| 0 <= k < |ids| && ids[k] == id;
    assert rows[k] == m[id];
    assert m[id] in multiset(rows);
  }

  /** `SELECT ... FROM user WHERE uid = ?`, first row. */
  function UserByUid(t: Tables, uid: string): (r: Option<nat>)
    requires Valid(t)
    ensures r.Some? ==> r.value in t.users && t.users[r.value].uid == uid
    ensures r.None? ==> forall id :: id in t.users ==> t.users[id].uid != uid
  {
    FirstWhere(t.users, (u: UserRow) => u.uid == uid, 0, t.nextUserId)
  }

  /** `getUserIdFromUid`: the id, or null. */
  function UserIdFromUid(t: Tables, uid: string): (r: Option<nat>)
    requires Valid(t)
    ensures r.Some? <==> exists id :: id in t.users && t.users[id].uid == uid
  {
    UserByUid(t, uid)
  }

  /** Whether a user row is NORMAL: every lookup with `row_status = 'NORMAL'`. */
  predicate IsNormal(u: UserRow) {
    u.rowStatus == Normal
  }

  /** The ids of the resources linked to a memo, in link-table order. */
  function LinkedIds(links: seq<Link>, memoId: int): (r: seq<int>)
    ensures forall x :: x in r <==> Link(memoId, x) in links
  {
    if |links| == 0 then []
    else
      var rest := LinkedIds(links[1..], memoId);
      assert forall x :: Link(memoId, x) in links <==> Link(memoId, x) == links[0] || Link(memoId, x) in links[1..];
      if links[0].memoId == memoId then [links[0].otherId] + rest else rest
  }

  /** `DELETE FROM memo_resource` (or `memo_tag`) `WHERE memo_id = ?`: the other memos' links, in order. */
  function WithoutMemo(links: seq<Link>, memoId: int): (r: seq<Link>)
    ensures forall k :: 0 <= k < |r| ==> r[k].memoId != memoId
    ensures forall l :: l in r <==> l in links && l.memoId != memoId
  {
    if |links| == 0 then []
    else
      var rest := WithoutMemo(links[1..], memoId);
      assert forall l :: l in links <==> l == links[0] || l in links[1..];
      if links[0].memoId == memoId then rest else [links[0]] + rest
  }

  /** The rows `INSERT INTO memo_resource (memo_id, resource_id)` adds, one per id, in order. */
  function LinksFor(memoId: int, ids: seq<int>): (r: seq<Link>)
    ensures |r| == |ids| && forall i :: 0 <= i < |ids| ==> r[i] == Link(memoId, ids[i])
  {
    if |ids| == 0 then [] else [Link(memoId, ids[0])] + LinksFor(memoId, ids[1..])
  }

  lemma {:induction false} LinkedIdsAppend(a: seq<Link>, b: seq<Link>, memoId: int)
    ensures LinkedIds(a + b, memoId) == LinkedIds(a, memoId) + LinkedIds(b, memoId)
    decreases |a|
  {
    if |a| == 0 {
      assert a + b == b;
    } else {
      assert (a + b)[1..] == a[1..] + b;
      LinkedIdsAppend(a[1..], b, memoId);
    }
  }

  /** Reading back the links written for a memo gives the ids in the order they were written. */
  lemma {:induction false} LinkedIdsOfLinksFor(memoId: int, ids: seq<int>)
    ensures LinkedIds(LinksFor(memoId, ids), memoId) == ids
    decreases |ids|
  {
    if |ids| > 0 {
      LinkedIdsOfLinksFor(memoId, ids[1..]);
      assert LinksFor(memoId, ids)[1..] == LinksFor(memoId, ids[1..]);
    }
  }

  /** After the memo's links are deleted, it has none. */
  lemma {:induction false} LinkedIdsWithoutMemo(links: seq<Link>, memoId: int)
    ensures LinkedIds(WithoutMemo(links, memoId), memoId) == []
    decreases |links|
  {
    if |links| > 0 {
      LinkedIdsWithoutMemo(links[1..], memoId);
    }
  }

  /**
   * The names of the tags linked to a memo: `tag JOIN memo_tag`, in
   * link-table order. Every name is that of a linked tag that exists, and
   * every link of the memo to an existing tag contributes its name.
   */
  function LinkedTagNames(tags: map<nat, TagRow>, links: seq<Link>, memoId: int): (r: seq<string>)
    ensures |r| <= |links|
    ensures forall n :: n in r ==> exists x :: Link(memoId, x) in links && x >= 0 && x in tags && tags[x].name == n
    ensures forall k :: 0 <= k < |links| && links[k].memoId == memoId && links[k].otherId >= 0 && links[k].otherId in tags ==>
      tags[links[k].otherId].name in r
  {
    if |links| == 0 then []
    else
      var rest := LinkedTagNames(tags, links[1..], memoId);
      var l := links[0];
      if l.memoId == memoId && l.otherId >= 0 && l.otherId in tags then [tags[l.otherId].name] + rest else rest
  }

  /** What `getMemoWithDetails` returns: the memo with its resource ids and tag names. */
  datatype MemoDetails = MemoDetails(
    id: nat, uid: string, creatorId: nat, content: string, visibility: string,
    rowStatus: string, createdTs: int, updatedTs: int,
    resourceIdList: seq<int>, tags: seq<string>)

  /** `getMemoWithDetails(db, id)`: null unless the memo and its creator both exist. */
  function MemoWithDetails(t: Tables, memoId: int): (r: Option<MemoDetails>)
    ensures r.Some? <==> memoId >= 0 && memoId in t.memos && t.memos[memoId].creatorId in t.users
    ensures r.Some? ==> (
      && r.value.id == t.memos[memoId].id && r.value.content == t.memos[memoId].content
      && r.value.visibility == t.memos[memoId].visibility && r.value.creatorId == t.memos[memoId].creatorId
      && r.value.uid == t.memos[memoId].uid && r.value.rowStatus == RowStatusName(t.memos[memoId].rowStatus)
      && r.value.createdTs == t.memos[memoId].createdTs && r.value.updatedTs == t.memos[memoId].updatedTs
      && r.value.resourceIdList == LinkedIds(t.memoResources, memoId)
      && (forall x :: x in r.value.resourceIdList <==> Link(memoId, x) in t.memoResources)
      && r.value.tags == LinkedTagNames(t.tags, t.memoTags, memoId))
  {
    if memoId >= 0 && memoId in t.memos && t.memos[memoId].creatorId in t.users then
      var m := t.memos[memoId];
      Some(MemoDetails(m.id, m.uid, m.creatorId, m.content, m.visibility, RowStatusName(m.rowStatus),
                       m.createdTs, m.updatedTs,
                       LinkedIds(t.memoResources, memoId), LinkedTagNames(t.tags, t.memoTags, memoId)))
    else None
  }

  /** A user as the API shows it: every column but the password hash. */
  datatype PublicUser = PublicUser(
    id: nat, uid: string, username: string, nickname: Option<string>, role: Role,
    email: Option<string>, avatarUrl: Option<string>, description: Option<string>,
    rowStatus: RowStatus, createdTs: int, updatedTs: int)

  /** `sanitizeUser`: the row without `passwordHash`. */
  function Sanitize(u: UserRow): PublicUser {
    PublicUser(u.id, u.uid, u.username, u.nickname, u.role, u.email, u.avatarUrl, u.description,
               u.rowStatus, u.createdTs, u.updatedTs)
  }

  /** The public view does not depend on the password hash, and keeps every other column. */
  lemma SanitizeHidesHash(u: UserRow, hash: string)
    ensures Sanitize(u.(passwordHash := hash)) == Sanitize(u)
    ensures forall v: UserRow :: v.passwordHash == u.passwordHash && Sanitize(v) == Sanitize(u) ==> v == u
  {
  }

  /** The D1 database of one deployment. */
  class Database {
    var users: map<nat, UserRow>
    var memos: map<nat, MemoRow>
    var resources: map<nat, ResourceRow>
    var tags: map<nat, TagRow>
    var settings: map<int, SettingRow>
    var memoResources: seq<Link>
    var memoTags: seq<Link>
    var nextUserId: nat
    var nextMemoId: nat
    var nextResourceId: nat
    var nextTagId: nat

    /** An empty database; row ids start at 1. */
    constructor ()
      ensures State() == Tables(map[], map[], map[], map[], map[], [], [], 1, 1, 1, 1)
      ensures Valid(State())
    {
      users, memos, resources, tags, settings := map[], map[], map[], map[], map[];
      memoResources, memoTags := [], [];
      nextUserId, nextMemoId, nextResourceId, nextTagId := 1, 1, 1, 1;
    }

    function State(): Tables
      reads this
    {
      Tables(users, memos, resources, tags, settings, memoResources, memoTags,
             nextUserId, nextMemoId, nextResourceId, nextTagId)
    }
  }
}
