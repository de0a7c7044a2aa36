/**
 * The memo handlers of backend/src/routes/memo.ts over the in-memory tables:
 * create, list, get, patch and (logical) delete, and `getMemoWithDetails`
 * (`Schema.MemoWithDetails`).
 *
 * The caller is the `user` slot the authentication middleware filled, None
 * when it is empty. The clock and the fresh memo uid are parameters. A path
 * id that `parseInt` cannot read is bound as NaN, which SQLite takes as NULL
 * and which therefore matches no row.
 */
module MemoRoutes {
  import opened Wrappers
  import opened Types
  import opened Text
  import opened Schema
  import opened Sorting

  /** `INSERT INTO memo_resource` once per resource id, in order. */
  method InsertResourceLinks(db: Database, memoId: nat, resourceIdList: seq<int>)
    modifies db
    ensures db.memoResources == old(db.memoResources) + LinksFor(memoId, resourceIdList)
    ensures db.State() == old(db.State()).(memoResources := db.memoResources)
  {
    var i := 0;
    while i < |resourceIdList|
      invariant 0 <= i <= |resourceIdList|
      invariant db.memoResources == old(db.memoResources) + LinksFor(memoId, resourceIdList[..i])
      invariant db.State() == old(db.State()).(memoResources := db.memoResources)
    {
      assert LinksFor(memoId, resourceIdList[..i + 1]) == LinksFor(memoId, resourceIdList[..i]) + [Link(memoId, resourceIdList[i])];
      db.memoResources := db.memoResources + [Link(memoId, resourceIdList[i])];
      i := i + 1;
    }
    assert resourceIdList[..i] == resourceIdList;
  }

  /** The row `POST /` inserts: NORMAL, PRIVATE unless a visibility is given, created and updated now. */
  function NewMemo(id: nat, uid: string, creatorId: nat, content: string, visibility: Option<string>, now: int): MemoRow {
    MemoRow(id, uid, creatorId, content, visibility.GetOr(PRIVATE), Normal, now, now)
  }

  /** `POST /`: create a memo for the caller and link the given resources. */
  method CreateMemo(db: Database, caller: Option<Claims>, content: Option<string>, visibility: Option<string>,
                    resourceIdList: seq<int>, memoUid: string, now: int)
    returns (reply: Response<Option<MemoDetails>>)
    requires Valid(db.State())
    modifies db
    ensures Valid(db.State())
    ensures caller.None? ==> reply == Fail(401, "Unauthorized") && db.State() == old(db.State())
    ensures caller.Some? && !Truthy(content) ==>
      reply == Fail(400, "Content is required") && db.State() == old(db.State())
    ensures caller.Some? && Truthy(content) && old(UserIdFromUid(db.State(), caller.value.sub)).None? ==>
      reply == Fail(404, "User not found") && db.State() == old(db.State())
    ensures (caller.Some? && Truthy(content) && old(UserIdFromUid(db.State(), caller.value.sub)).Some?) ==>
      && var id := old(db.nextMemoId);
      && var creator := old(UserIdFromUid(db.State(), caller.value.sub)).value;
      && db.State() == old(db.State()).(memos := old(db.memos)[id := NewMemo(id, memoUid, creator, content.value, visibility, now)],
                                        nextMemoId := id + 1,
                                        memoResources := old(db.memoResources) + LinksFor(id, resourceIdList))
      && reply == Ok(MemoWithDetails(db.State(), id))
  {
    if caller.None? {
      return Fail(401, "Unauthorized");
    }
    if !Truthy(content) {
      return Fail(400, "Content is required");
    }
    var user := UserIdFromUid(db.State(), caller.value.sub);
    if user.None? {
      return Fail(404, "User not found");
    }
    var memoId := db.nextMemoId;
    db.memos := db.memos[memoId := NewMemo(memoId, memoUid, user.value, content.value, visibility, now)];
    db.nextMemoId := memoId + 1;
    InsertResourceLinks(db, memoId, resourceIdList);
    reply := Ok(MemoWithDetails(db.State(), memoId));
  }

  /**
   * What a created memo reads back as: the content given, PRIVATE by
   * default, NORMAL, created and updated at the same second, and the given
   * resource ids after any links already recorded under its id.
   */
  lemma CreatedMemoDetails(t: Tables, uid: string, creator: nat, content: string, visibility: Option<string>,
                           resourceIdList: seq<int>, now: int)
    requires Valid(t) && creator in t.users
    ensures var id := t.nextMemoId;
      var t' := t.(memos := t.memos[id := NewMemo(id, uid, creator, content, visibility, now)], nextMemoId := id + 1,
                   memoResources := t.memoResources + LinksFor(id, resourceIdList));
      && Valid(t')
      && MemoWithDetails(t', id).Some?
      && var d := MemoWithDetails(t', id).value;
      && d.id == id && d.creatorId == creator && d.content == content
      && d.visibility == (if visibility.None? then PRIVATE else visibility.value)
      && d.rowStatus == "NORMAL" && d.createdTs == d.updatedTs == now
      && d.resourceIdList == LinkedIds(t.memoResources, id) + resourceIdList
  {
    var id := t.nextMemoId;
    LinkedIdsAppend(t.memoResources, LinksFor(id, resourceIdList), id);
    LinkedIdsOfLinksFor(id, resourceIdList);
  }

  /** `SELECT ... FROM memo WHERE id = ?` with the path id read by `parseInt`. */
  function MemoById(t: Tables, idParam: string): (r: Option<nat>)
    ensures r.Some? <==> ParseInt(idParam).Some? && ParseInt(idParam).value >= 0 && ParseInt(idParam).value in t.memos
    ensures r.Some? ==> r.value == ParseInt(idParam).value
  {
    match ParseInt(idParam)
    case Some(n) => if n >= 0 && n in t.memos then Some(n) else None
    case None => None
  }

  /** The same lookup joined with `user`: the memo must have an existing creator. */
  function JoinedMemoById(t: Tables, idParam: string): (r: Option<nat>)
    ensures r.Some? <==> MemoById(t, idParam).Some? && t.memos[MemoById(t, idParam).value].creatorId in t.users
    ensures r.Some? ==> r == MemoById(t, idParam)
  {
    match MemoById(t, idParam)
    case Some(n) => if t.memos[n].creatorId in t.users then Some(n) else None
    case None => None
  }

  /** The PRIVATE check of `GET /:id`: only the creator, whatever anyone's role. */
  predicate MayRead(t: Tables, caller: Option<Claims>, m: MemoRow)
    requires Valid(t)
  {
    m.visibility != PRIVATE || (caller.Some? && UserIdFromUid(t, caller.value.sub) == Some(m.creatorId))
  }

  /**
   * `GET /:id`: a memo that is not PRIVATE goes to anyone, a PRIVATE one only
   * to its creator; a HOST who did not write it is refused like anyone else.
   */
  function GetMemo(t: Tables, idParam: string, caller: Option<Claims>): (r: Response<Option<MemoDetails>>)
    requires Valid(t)
    ensures JoinedMemoById(t, idParam).None? <==> r == Fail(404, "Memo not found")
    ensures JoinedMemoById(t, idParam).Some? && t.memos[JoinedMemoById(t, idParam).value].visibility == PRIVATE
      && (caller.None? || UserIdFromUid(t, caller.value.sub) != Some(t.memos[JoinedMemoById(t, idParam).value].creatorId))
      ==> r == Fail(403, "Forbidden")
    ensures r.Ok? <==> JoinedMemoById(t, idParam).Some? && MayRead(t, caller, t.memos[JoinedMemoById(t, idParam).value])
    ensures r.Ok? ==> r.value.Some? && r.value == MemoWithDetails(t, JoinedMemoById(t, idParam).value)
  {
    match JoinedMemoById(t, idParam)
    case None => Fail(404, "Memo not found")
    case Some(id) =>
      if t.memos[id].visibility == PRIVATE
         && (caller.None? || t.memos[id].creatorId as int != (if UserIdFromUid(t, caller.value.sub).Some? then UserIdFromUid(t, caller.value.sub).value as int else -1))
      then Fail(403, "Forbidden")
      else Ok(MemoWithDetails(t, id))
  }

  /** The check of `PATCH` and `DELETE`: the caller wrote the memo, or is a HOST. */
  predicate MayModify(t: Tables, caller: Claims, m: MemoRow)
    requires Valid(t)
  {
    UserIdFromUid(t, caller.sub) == Some(m.creatorId) || caller.role == Host
  }

  /** One `column = ?` of the UPDATE statement `PATCH /:id` builds. */
  datatype MemoAssignment = SetContent(content: string) | SetVisibility(visibility: string) | SetUpdatedTs(ts: int)

  function Assign(m: MemoRow, a: MemoAssignment): MemoRow {
    match a
    case SetContent(c) => m.(content := c)
    case SetVisibility(v) => m.(visibility := v)
    case SetUpdatedTs(ts) => m.(updatedTs := ts)
  }

  /** `UPDATE memo SET ... WHERE id = ?` applied to the row. */
  function AssignAll(m: MemoRow, updates: seq<MemoAssignment>): MemoRow
    decreases |updates|
  {
    if |updates| == 0 then m else AssignAll(Assign(m, updates[0]), updates[1..])
  }

  /**
   * The memo row after `PATCH /:id`: the supplied content and visibility
   * replace the stored ones and `updated_ts` becomes `now`, but only when at
   * least one of the two was supplied; otherwise the row is untouched.
   */
  function PatchedMemo(m: MemoRow, content: Option<string>, visibility: Option<string>, now: int): (r: MemoRow)
    ensures r.id == m.id && r.uid == m.uid && r.creatorId == m.creatorId
    ensures r.rowStatus == m.rowStatus && r.createdTs == m.createdTs
    ensures r.content == (if content.Some? then content.value else m.content)
    ensures r.visibility == (if visibility.Some? then visibility.value else m.visibility)
    ensures r.updatedTs == (if content.Some? || visibility.Some? then now else m.updatedTs)
  {
    if content.Some? || visibility.Some? then
      m.(content := content.GetOr(m.content), visibility := visibility.GetOr(m.visibility), updatedTs := now)
    else m
  }

  /** The `updates` list of `PATCH /:id`, built column by column. */
  method BuildMemoUpdates(content: Option<string>, visibility: Option<string>, now: int)
    returns (updates: seq<MemoAssignment>)
    ensures |updates| > 1 <==> content.Some? || visibility.Some?
    ensures content.Some? || visibility.Some? ==> forall m :: AssignAll(m, updates) == PatchedMemo(m, content, visibility, now)
  {
    updates := [];
    if content.Some? {
      updates := updates + [SetContent(content.value)];
    }
    if visibility.Some? {
      updates := updates + [SetVisibility(visibility.value)];
    }
    updates := updates + [SetUpdatedTs(now)];
    forall m | content.Some? || visibility.Some? ensures AssignAll(m, updates) == PatchedMemo(m, content, visibility, now) {
      var rest := updates;
      var cur := m;
      if content.Some? {
        assert rest[0] == SetContent(content.value);
        assert AssignAll(m, updates) == AssignAll(cur.(content := content.value), rest[1..]);
        cur, rest := cur.(content := content.value), rest[1..];
      }
      if visibility.Some? {
        assert rest[0] == SetVisibility(visibility.value);
        assert AssignAll(m, updates) == AssignAll(cur.(visibility := visibility.value), rest[1..]);
        cur, rest := cur.(visibility := visibility.value), rest[1..];
      }
      assert rest == [SetUpdatedTs(now)];
      assert AssignAll(cur, rest) == AssignAll(cur.(updatedTs := now), []);
    }
  }

  /**
   * `PATCH /:id`: after the 401, 404 and 403 checks, the supplied columns are
   * written, and a supplied `resourceIdList` replaces all the memo's
   * resource links by the given ones, in order.
   */
  method PatchMemo(db: Database, idParam: string, caller: Option<Claims>, content: Option<string>,
                   visibility: Option<string>, resourceIdList: Option<seq<int>>, now: int)
    returns (reply: Response<Option<MemoDetails>>)
    requires Valid(db.State())
    modifies db
    ensures Valid(db.State())
    ensures caller.None? ==> reply == Fail(401, "Unauthorized") && db.State() == old(db.State())
    ensures caller.Some? && old(MemoById(db.State(), idParam)).None? ==>
      reply == Fail(404, "Memo not found") && db.State() == old(db.State())
    ensures (caller.Some? && old(MemoById(db.State(), idParam)).Some?
             && !old(MayModify(db.State(), caller.value, db.memos[MemoById(db.State(), idParam).value]))) ==>
      reply == Fail(403, "Forbidden") && db.State() == old(db.State())
    ensures (caller.Some? && old(MemoById(db.State(), idParam)).Some?
             && old(MayModify(db.State(), caller.value, db.memos[MemoById(db.State(), idParam).value]))) ==>
      && var id := old(MemoById(db.State(), idParam)).value;
      && db.State() == old(db.State()).(
           memos := old(db.memos)[id := PatchedMemo(old(db.memos)[id], content, visibility, now)],
           memoResources := if resourceIdList.Some? then WithoutMemo(old(db.memoResources), id) + LinksFor(id, resourceIdList.value)
                            else old(db.memoResources))
      && reply == Ok(MemoWithDetails(db.State(), id))
  {
    if caller.None? {
      return Fail(401, "Unauthorized");
    }
    var found := MemoById(db.State(), idParam);
    if found.None? {
      return Fail(404, "Memo not found");
    }
    var memoId := found.value;
    if !MayModify(db.State(), caller.value, db.memos[memoId]) {
      return Fail(403, "Forbidden");
    }
    ApplyMemoPatch(db, memoId, content, visibility, resourceIdList, now);
    reply := Ok(MemoWithDetails(db.State(), memoId));
  }

  /** The writes of `PATCH /:id` once its checks have passed. */
  method ApplyMemoPatch(db: Database, memoId: nat, content: Option<string>, visibility: Option<string>,
                        resourceIdList: Option<seq<int>>, now: int)
    requires Valid(db.State()) && memoId in db.memos
    modifies db
    ensures Valid(db.State())
    ensures db.State() == old(db.State()).(
      memos := old(db.memos)[memoId := PatchedMemo(old(db.memos)[memoId], content, visibility, now)],
      memoResources := if resourceIdList.Some? then WithoutMemo(old(db.memoResources), memoId) + LinksFor(memoId, resourceIdList.value)
                       else old(db.memoResources))
  {
    var updates := BuildMemoUpdates(content, visibility, now);
    if |updates| > 1 {
      db.memos := db.memos[memoId := AssignAll(db.memos[memoId], updates)];
    } else {
      assert db.memos == db.memos[memoId := PatchedMemo(db.memos[memoId], content, visibility, now)];
    }
    if resourceIdList.Some? {
      db.memoResources := WithoutMemo(db.memoResources, memoId);
      InsertResourceLinks(db, memoId, resourceIdList.value);
    }
  }

  /** A supplied resource list is exactly what the patched memo then reads back. */
  lemma PatchedResourceLinks(links: seq<Link>, memoId: nat, resourceIdList: seq<int>)
    ensures LinkedIds(WithoutMemo(links, memoId) + LinksFor(memoId, resourceIdList), memoId) == resourceIdList
  {
    LinkedIdsAppend(WithoutMemo(links, memoId), LinksFor(memoId, resourceIdList), memoId);
    LinkedIdsWithoutMemo(links, memoId);
    LinkedIdsOfLinksFor(memoId, resourceIdList);
  }

  /**
   * `DELETE /:id`: logical deletion. The row stays, ARCHIVED, with
   * `updated_ts = now`; nothing else changes.
   */
  method DeleteMemo(db: Database, idParam: string, caller: Option<Claims>, now: int) returns (reply: Response<string>)
    requires Valid(db.State())
    modifies db
    ensures Valid(db.State())
    ensures caller.None? ==> reply == Fail(401, "Unauthorized") && db.State() == old(db.State())
    ensures caller.Some? && old(MemoById(db.State(), idParam)).None? ==>
      reply == Fail(404, "Memo not found") && db.State() == old(db.State())
    ensures (caller.Some? && old(MemoById(db.State(), idParam)).Some?
             && !old(MayModify(db.State(), caller.value, db.memos[MemoById(db.State(), idParam).value]))) ==>
      reply == Fail(403, "Forbidden") && db.State() == old(db.State())
    ensures (caller.Some? && old(MemoById(db.State(), idParam)).Some?
             && old(MayModify(db.State(), caller.value, db.memos[MemoById(db.State(), idParam).value]))) ==>
      && var id := old(MemoById(db.State(), idParam)).value;
      && db.State() == old(db.State()).(memos := old(db.memos)[id := old(db.memos)[id].(rowStatus := Archived, updatedTs := now)])
      && reply == Ok("Memo deleted successfully")
  {
    if caller.None? {
      return Fail(401, "Unauthorized");
    }
    var found := MemoById(db.State(), idParam);
    if found.None? {
      return Fail(404, "Memo not found");
    }
    var memoId := found.value;
    if !MayModify(db.State(), caller.value, db.memos[memoId]) {
      return Fail(403, "Forbidden");
    }
    db.memos := db.memos[memoId := db.memos[memoId].(rowStatus := Archived, updatedTs := now)];
    return Ok("Memo deleted successfully");
  }

  /** An archived memo is still there: its id still reads back, now as ARCHIVED, with its content and links. */
  lemma DeletedMemoStillReads(t: Tables, id: nat, now: int)
    requires Valid(t) && id in t.memos && t.memos[id].creatorId in t.users
    ensures var t' := t.(memos := t.memos[id := t.memos[id].(rowStatus := Archived, updatedTs := now)]);
      && MemoWithDetails(t', id).Some?
      && MemoWithDetails(t', id).value == MemoWithDetails(t, id).value.(rowStatus := "ARCHIVED", updatedTs := now)
  {
  }

  /** The query string of `GET /`; each value is absent when it is not given. */
  datatype MemoQuery = MemoQuery(
    rowStatus: Option<string>, creatorId: Option<string>, tag: Option<string>,
    visibility: Option<string>, limit: Option<string>, offset: Option<string>)

  /** One `AND` term of the WHERE clause `GET /` builds, with its bound parameter. */
  datatype Condition = StatusIs(status: string) | CreatorIs(creator: string) | VisibilityIs(visibility: string) | TaggedWith(tag: string)

  /** `EXISTS (SELECT 1 FROM memo_tag JOIN tag ... WHERE memo_id = m.id AND name = ?)`. */
  predicate HasTag(t: Tables, memoId: int, name: string) {
    exists k :: 0 <= k < |t.memoTags| && t.memoTags[k].memoId == memoId && t.memoTags[k].otherId >= 0
      && t.memoTags[k].otherId in t.tags && t.tags[t.memoTags[k].otherId].name == name
  }

  /** A row meets one term; the creator id is bound as text and compared as its decimal rendering. */
  predicate Holds(t: Tables, m: MemoRow, c: Condition) {
    match c
    case StatusIs(s) => RowStatusName(m.rowStatus) == s
    case CreatorIs(s) => IntToDecimal(m.creatorId) == s
    case VisibilityIs(v) => m.visibility == v
    case TaggedWith(n) => HasTag(t, m.id, n)
  }

  predicate AllHold(t: Tables, m: MemoRow, conds: seq<Condition>) {
    forall i :: 0 <= i < |conds| ==> Holds(t, m, conds[i])
  }

  /**
   * The list rule: the requested row status, NORMAL by default; the
   * requested creator, if any; the requested visibility, or PUBLIC when
   * neither a visibility nor a creator is requested; and a tag of the
   * requested name, if any.
   */
  predicate ListRule(t: Tables, q: MemoQuery, m: MemoRow) {
    && RowStatusName(m.rowStatus) == (if Truthy(q.rowStatus) then q.rowStatus.value else "NORMAL")
    && (Truthy(q.creatorId) ==> IntToDecimal(m.creatorId) == q.creatorId.value)
    && (Truthy(q.visibility) ==> m.visibility == q.visibility.value)
    && (!Truthy(q.visibility) && !Truthy(q.creatorId) ==> m.visibility == PUBLIC)
    && (Truthy(q.tag) ==> HasTag(t, m.id, q.tag.value))
  }

  /** The `whereClause`/`params` pair of `GET /`, grown term by term: it states exactly the list rule. */
  method BuildMemoFilter(q: MemoQuery) returns (conds: seq<Condition>)
    ensures forall t, m :: AllHold(t, m, conds) <==> ListRule(t, q, m)
  {
    conds := [StatusIs(OrElse(q.rowStatus, "NORMAL"))];
    if Truthy(q.creatorId) {
      conds := conds + [CreatorIs(q.creatorId.value)];
    }
    if Truthy(q.visibility) {
      conds := conds + [VisibilityIs(q.visibility.value)];
    } else if !Truthy(q.creatorId) {
      conds := conds + [VisibilityIs(PUBLIC)];
    }
    if Truthy(q.tag) {
      conds := conds + [TaggedWith(q.tag.value)];
    }
    forall t, m ensures AllHold(t, m, conds) <==> ListRule(t, q, m) {
      var base := [StatusIs(OrElse(q.rowStatus, "NORMAL"))];
      var byCreator := if Truthy(q.creatorId) then [CreatorIs(q.creatorId.value)] else [];
      var byVisibility := if Truthy(q.visibility) then [VisibilityIs(q.visibility.value)]
                          else if !Truthy(q.creatorId) then [VisibilityIs(PUBLIC)] else [];
      var byTag := if Truthy(q.tag) then [TaggedWith(q.tag.value)] else [];
      assert conds == base + byCreator + byVisibility + byTag;
      AllHoldAppend(t, m, base + byCreator + byVisibility, byTag);
      AllHoldAppend(t, m, base + byCreator, byVisibility);
      AllHoldAppend(t, m, base, byCreator);
      assert AllHold(t, m, base) <==> Holds(t, m, base[0]);
      assert AllHold(t, m, byCreator) <==> (Truthy(q.creatorId) ==> Holds(t, m, byCreator[0]));
      assert AllHold(t, m, byVisibility) <==> (|byVisibility| == 1 ==> Holds(t, m, byVisibility[0]));
      assert AllHold(t, m, byTag) <==> (Truthy(q.tag) ==> Holds(t, m, byTag[0]));
    }
  }

  lemma AllHoldAppend(t: Tables, m: MemoRow, a: seq<Condition>, b: seq<Condition>)
    ensures AllHold(t, m, a + b) <==> AllHold(t, m, a) && AllHold(t, m, b)
  {
    if AllHold(t, m, a) && AllHold(t, m, b) {
      forall i | 0 <= i < |a + b| ensures Holds(t, m, (a + b)[i]) {
        if i >= |a| { assert (a + b)[i] == b[i - |a|]; }
      }
    }
    if AllHold(t, m, a + b) {
      forall i | 0 <= i < |a| ensures Holds(t, m, a[i]) {
        assert (a + b)[i] == a[i];
      }
      forall i | 0 <= i < |b| ensures Holds(t, m, b[i]) {
        assert (a + b)[|a| + i] == b[i];
      }
    }
  }

  /** `ORDER BY m.created_ts DESC`: `a` goes before `b` when it was created later. */
  function NewestFirst(a: MemoRow, b: MemoRow): bool {
    a.createdTs > b.createdTs
  }

  /** The rows `GET /` selects: memos with an existing creator that meet the rule, newest first, then the window. */
  function ListedMemos(t: Tables, q: MemoQuery, limit: int, offset: int): seq<MemoRow>
    requires Valid(t)
  {
    var ids := IdsWhere(t.memos, (m: MemoRow) => m.creatorId in t.users && ListRule(t, q, m), 0, t.nextMemoId);
    Window(Sort(RowsOf(t.memos, ids), NewestFirst), limit, offset)
  }

  /** `parseInt(limit || '50')` and `parseInt(offset || '0')`. */
  function PageOf(q: MemoQuery): (Option<int>, Option<int>) {
    (ParseInt(OrElse(q.limit, "50")), ParseInt(OrElse(q.offset, "0")))
  }

  /**
   * `GET /`: the selected rows, each with its details. A limit or offset
   * that `parseInt` reads as NaN is bound as NULL, which SQLite refuses in
   * `LIMIT`/`OFFSET`, and the handler answers 500.
   */
  method ListMemos(db: Database, q: MemoQuery) returns (reply: Response<seq<MemoDetails>>)
    requires Valid(db.State())
    ensures PageOf(q).0.None? || PageOf(q).1.None? ==> reply == Fail(500, "Internal server error")
    ensures PageOf(q).0.Some? && PageOf(q).1.Some? ==>
      && reply.Ok?
      && var rows := ListedMemos(db.State(), q, PageOf(q).0.value, PageOf(q).1.value);
      && |reply.value| == |rows|
      && forall i :: 0 <= i < |rows| ==> Some(reply.value[i]) == MemoWithDetails(db.State(), rows[i].id)
  {
    var t := db.State();
    var limit, offset := ParseInt(OrElse(q.limit, "50")), ParseInt(OrElse(q.offset, "0"));
    if limit.None? || offset.None? {
      return Fail(500, "Internal server error");
    }
    var rows := SelectMemos(t, q, limit.value, offset.value);
    ListedMemosSound(t, q, limit.value, offset.value);
    var details := DetailsOf(t, rows);
    return Ok(details);
  }

  /** The prepared `SELECT` of `GET /`, with the filter built from the query. */
  method SelectMemos(t: Tables, q: MemoQuery, limit: int, offset: int) returns (rows: seq<MemoRow>)
    requires Valid(t)
    ensures rows == ListedMemos(t, q, limit, offset)
  {
    var conds := BuildMemoFilter(q);
    var filter := (m: MemoRow) => m.creatorId in t.users && AllHold(t, m, conds);
    IdsWhereSame(t.memos, filter, (m: MemoRow) => m.creatorId in t.users && ListRule(t, q, m), 0, t.nextMemoId);
    var ids := IdsWhere(t.memos, filter, 0, t.nextMemoId);
    rows := Window(Sort(RowsOf(t.memos, ids), NewestFirst), limit, offset);
  }

  /** The `for ... of` loop that awaits `getMemoWithDetails(db, memo.id)` for each row, in order, over rows whose creator exists. */
  method DetailsOf(t: Tables, rows: seq<MemoRow>) returns (details: seq<MemoDetails>)
    requires forall k :: 0 <= k < |rows| ==> rows[k].id >= 0 && rows[k].id in t.memos && t.memos[rows[k].id].creatorId in t.users
    ensures |details| == |rows|
    ensures forall k :: 0 <= k < |rows| ==> Some(details[k]) == MemoWithDetails(t, rows[k].id)
  {
    details := [];
    var i := 0;
    while i < |rows|
      invariant 0 <= i <= |rows|
      invariant |details| == i
      invariant forall k :: 0 <= k < i ==> Some(details[k]) == MemoWithDetails(t, rows[k].id)
    {
      var d := MemoWithDetails(t, rows[i].id);
      details := details + [d.value];
      i := i + 1;
    }
  }

  /** Every listed memo is a stored memo with an existing creator that meets the list rule. */
  lemma ListedMemosSound(t: Tables, q: MemoQuery, limit: int, offset: int)
    requires Valid(t)
    ensures var r := ListedMemos(t, q, limit, offset);
      forall i :: 0 <= i < |r| ==>
        r[i].id in t.memos && t.memos[r[i].id] == r[i] && r[i].creatorId in t.users && ListRule(t, q, r[i])
  {
    var p := (m: MemoRow) => m.creatorId in t.users && ListRule(t, q, m);
    var r := ListedMemos(t, q, limit, offset);
    SelectedRowsSound(t.memos, p, 0, t.nextMemoId, NewestFirst, limit, offset);
    forall i | 0 <= i < |r|
      ensures r[i].id in t.memos && t.memos[r[i].id] == r[i] && r[i].creatorId in t.users && ListRule(t, q, r[i])
    {
      assert r[i] in r;
      var id :| id in t.memos && t.memos[id] == r[i] && p(r[i]);
    }
  }

  /** The list comes newest first. */
  lemma ListedMemosNewestFirst(t: Tables, q: MemoQuery, limit: int, offset: int)
    requires Valid(t)
    ensures var r := ListedMemos(t, q, limit, offset);
      forall i :: 0 <= i < |r| - 1 ==> r[i].createdTs >= r[i + 1].createdTs
  {
    var ids := IdsWhere(t.memos, (m: MemoRow) => m.creatorId in t.users && ListRule(t, q, m), 0, t.nextMemoId);
    var sorted := Sort(RowsOf(t.memos, ids), NewestFirst);
    assert Asymmetric(NewestFirst);
    SortSorted(RowsOf(t.memos, ids), NewestFirst);
  }

  /** At most `limit` memos come back. */
  lemma ListedMemosBounded(t: Tables, q: MemoQuery, limit: int, offset: int)
    requires Valid(t)
    ensures limit >= 0 ==> |ListedMemos(t, q, limit, offset)| <= limit
  {
    var ids := IdsWhere(t.memos, (m: MemoRow) => m.creatorId in t.users && ListRule(t, q, m), 0, t.nextMemoId);
  }

  /**
   * With no offset and a limit that is negative or at least the number of
   * ids ever given out, every memo with an existing creator that meets the
   * rule is listed.
   */
  lemma ListedMemosComplete(t: Tables, q: MemoQuery, limit: int, offset: int, id: nat)
    requires Valid(t)
    requires offset <= 0 && (limit < 0 || limit >= t.nextMemoId)
    requires id in t.memos && t.memos[id].creatorId in t.users && ListRule(t, q, t.memos[id])
    ensures t.memos[id] in ListedMemos(t, q, limit, offset)
  {
    var p := (m: MemoRow) => m.creatorId in t.users && ListRule(t, q, m);
    SelectedRowsComplete(t.memos, p, 0, t.nextMemoId, NewestFirst, limit, offset, id);
  }

  /**
   * The defaults of `GET /`: NORMAL memos only unless a row status is asked
   * for; PUBLIC memos only unless a visibility or a creator is asked for.
   */
  lemma ListDefaults(t: Tables, q: MemoQuery, limit: int, offset: int)
    requires Valid(t)
    ensures !Truthy(q.rowStatus) ==> forall m :: m in ListedMemos(t, q, limit, offset) ==> m.rowStatus == Normal
    ensures !Truthy(q.visibility) && !Truthy(q.creatorId) ==>
      forall m :: m in ListedMemos(t, q, limit, offset) ==> m.visibility == PUBLIC
  {
    ListedMemosSound(t, q, limit, offset);
  }

  /** Without `limit` and `offset`, a page is the first 50 rows. */
  lemma DefaultPage(q: MemoQuery)
    requires !Truthy(q.limit) && !Truthy(q.offset)
    ensures PageOf(q) == (Some(50), Some(0))
  {
    assert NatToDecimal(5) == [DecimalDigit(5)];
    assert NatToDecimal(50) == NatToDecimal(5) + [DecimalDigit(0)];
    ParseIntOfDecimal(50, "");
    assert IntToDecimal(50) + "" == OrElse(q.limit, "50");
    ParseIntOfDecimal(0, "");
    assert IntToDecimal(0) + "" == OrElse(q.offset, "0");
  }
}
