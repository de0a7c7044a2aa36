/**
 * The resource handlers of src/routes/resource.ts over the in-memory tables:
 * the upload with its ordered chain of checks, the owner-scoped list, and
 * the delete, which removes the memo links to a resource before its row.
 *
 * The uploaded file, the fresh resource uid, the storage configuration, the
 * clock and whether the object-store upload succeeded are parameters.
 */
module ResourceRoutes {
  import opened Wrappers
  import opened Types
  import opened Text
  import opened Schema
  import opened Sorting

  /** The `file` part of the multipart form: its name, size in bytes and MIME type (`''` when unknown). */
  datatype File = File(name: string, size: int, mimeType: string)

  /** The four storage bindings of the environment; None is unset. */
  datatype StorageConfig = StorageConfig(
    accountId: Option<string>, accessKeyId: Option<string>, secretAccessKey: Option<string>, bucket: Option<string>)

  predicate Complete(config: StorageConfig) {
    Truthy(config.accountId) && Truthy(config.accessKeyId) && Truthy(config.secretAccessKey) && Truthy(config.bucket)
  }

  /** 100 MiB, the largest upload accepted. */
  const MAX_UPLOAD_BYTES: int := 100 * 1024 * 1024

  /** `file.type || 'application/octet-stream'`. */
  function MimeTypeOf(fileType: string): (r: string)
    ensures r != ""
    ensures fileType != "" ==> r == fileType
    ensures fileType == "" ==> r == "application/octet-stream"
  {
    if fileType != "" then fileType else "application/octet-stream"
  }

  /** The object key: the resource uid, a slash, and the file name. */
  function StorageKey(resourceUid: string, fileName: string): string {
    resourceUid + "/" + fileName
  }

  /** `r2://` + bucket + `/` + key. */
  function ExternalUri(bucket: string, key: string): string {
    "r2://" + bucket + "/" + key
  }

  /**
   * For uids without a slash, as generated uids are, the key determines
   * both the uid and the file name: two uploads collide only if both agree.
   */
  lemma StorageKeyInjective(uid1: string, name1: string, uid2: string, name2: string)
    requires '/' !in uid1 && '/' !in uid2
    requires StorageKey(uid1, name1) == StorageKey(uid2, name2)
    ensures uid1 == uid2 && name1 == name2
  {
    var k := StorageKey(uid1, name1);
    FirstSlash(uid1, name1);
    FirstSlash(uid2, name2);
    assert |uid1| == |uid2|;
    assert uid1 == k[..|uid1|] == uid2;
    assert name1 == k[|uid1| + 1..] == name2;
  }

  /** In a key the first slash is the one after the uid. */
  lemma FirstSlash(uid: string, name: string)
    requires '/' !in uid
    ensures StorageKey(uid, name)[|uid|] == '/'
    ensures forall j :: 0 <= j < |uid| ==> StorageKey(uid, name)[j] != '/'
  {
    forall j | 0 <= j < |uid| ensures StorageKey(uid, name)[j] != '/' {
      assert StorageKey(uid, name)[j] == uid[j];
    }
  }

  /** The bucket prefix of an external URI gives back the object key. */
  lemma ExternalUriKey(bucket: string, key: string)
    ensures ReplaceFirst(ExternalUri(bucket, key), "r2://" + bucket + "/", "") == key
  {
    assert ExternalUri(bucket, key) == ("r2://" + bucket + "/") + key;
    ReplaceFirstOfPrefix("r2://" + bucket + "/", key);
  }

  /** A resource as the API shows it: every column but the creator. */
  datatype ResourceView = ResourceView(
    id: nat, uid: string, filename: string, mimeType: string, size: int, externalUri: string, createdTs: int)

  function ViewOf(r: ResourceRow): ResourceView {
    ResourceView(r.id, r.uid, r.filename, r.mimeType, r.size, r.externalUri, r.createdTs)
  }

  /** The row an accepted upload inserts. */
  function NewResource(id: nat, resourceUid: string, creatorId: nat, file: File, bucket: string, now: int): (r: ResourceRow)
    ensures r.id == id && r.uid == resourceUid && r.creatorId == creatorId && r.createdTs == now
    ensures r.filename == file.name && r.size == file.size && r.mimeType == MimeTypeOf(file.mimeType)
    ensures r.externalUri == "r2://" + bucket + "/" + resourceUid + "/" + file.name
  {
    ResourceRow(id, resourceUid, creatorId, file.name, MimeTypeOf(file.mimeType), file.size,
                ExternalUri(bucket, StorageKey(resourceUid, file.name)), now)
  }

  /**
   * `POST /blob`: the checks run in order (401 no caller, 404 no user of
   * that uid, 400 no file, 413 larger than 100 MiB, 500 incomplete storage
   * configuration), then the upload; only a successful upload inserts the
   * row.
   */
  method UploadResource(db: Database, caller: Option<Claims>, file: Option<File>, resourceUid: string,
                        config: StorageConfig, uploaded: bool, now: int)
    returns (reply: Response<ResourceView>)
    requires Valid(db.State())
    modifies db
    ensures Valid(db.State())
    ensures reply.Fail? ==> db.State() == old(db.State())
    ensures caller.None? ==> reply == Fail(401, "Unauthorized")
    ensures caller.Some? && old(UserByUid(db.State(), caller.value.sub)).None? ==> reply == Fail(404, "User not found")
    ensures (caller.Some? && old(UserByUid(db.State(), caller.value.sub)).Some? && file.None?) ==>
      reply == Fail(400, "No file provided")
    ensures (caller.Some? && old(UserByUid(db.State(), caller.value.sub)).Some? && file.Some?
             && file.value.size > MAX_UPLOAD_BYTES) ==> reply == Fail(413, "File too large")
    ensures (caller.Some? && old(UserByUid(db.State(), caller.value.sub)).Some? && file.Some?
             && file.value.size <= MAX_UPLOAD_BYTES && !Complete(config)) ==> reply == Fail(500, "R2 configuration incomplete")
    ensures (caller.Some? && old(UserByUid(db.State(), caller.value.sub)).Some? && file.Some?
             && file.value.size <= MAX_UPLOAD_BYTES && Complete(config) && !uploaded) ==>
      reply == Fail(500, "Internal server error")
    ensures reply.Ok? <==> caller.Some? && old(UserByUid(db.State(), caller.value.sub)).Some? && file.Some?
                           && file.value.size <= MAX_UPLOAD_BYTES && Complete(config) && uploaded
    ensures reply.Ok? ==>
      && var id := old(db.nextResourceId);
      && var row := NewResource(id, resourceUid, old(UserByUid(db.State(), caller.value.sub)).value, file.value,
                                config.bucket.value, now);
      && db.State() == old(db.State()).(resources := old(db.resources)[id := row], nextResourceId := id + 1)
      && reply == Ok(ViewOf(row))
  {
    if caller.None? {
      return Fail(401, "Unauthorized");
    }
    var user := UserByUid(db.State(), caller.value.sub);
    if user.None? {
      return Fail(404, "User not found");
    }
    if file.None? {
      return Fail(400, "No file provided");
    }
    if file.value.size > MAX_UPLOAD_BYTES {
      return Fail(413, "File too large");
    }
    if !Complete(config) {
      return Fail(500, "R2 configuration incomplete");
    }
    if !uploaded {
      return Fail(500, "Internal server error");
    }
    var id := db.nextResourceId;
    var row := NewResource(id, resourceUid, user.value, file.value, config.bucket.value, now);
    db.resources := db.resources[id := row];
    db.nextResourceId := id + 1;
    reply := Ok(ViewOf(db.resources[id]));
  }

  /** `ORDER BY created_ts DESC`. */
  function CreatedLater(a: ResourceRow, b: ResourceRow): bool {
    a.createdTs > b.createdTs
  }

  /** The rows `GET /` selects: the given user's resources, newest first, then the window. */
  function OwnResources(t: Tables, userId: nat, limit: int, offset: int): seq<ResourceRow>
    requires Valid(t)
  {
    var ids := IdsWhere(t.resources, (r: ResourceRow) => r.creatorId == userId, 0, t.nextResourceId);
    Window(Sort(RowsOf(t.resources, ids), CreatedLater), limit, offset)
  }

  function ViewAll(rows: seq<ResourceRow>): (r: seq<ResourceView>)
    ensures |r| == |rows| && forall i :: 0 <= i < |rows| ==> r[i] == ViewOf(rows[i])
  {
    if |rows| == 0 then [] else [ViewOf(rows[0])] + ViewAll(rows[1..])
  }

  /**
   * `GET /`: the caller's own resources, a page of 50 from the start by
   * default; a limit or offset `parseInt` reads as NaN gives 500.
   */
  function ListResources(t: Tables, caller: Option<Claims>, limit: Option<string>, offset: Option<string>)
    : (r: Response<seq<ResourceView>>)
    requires Valid(t)
    ensures caller.None? ==> r == Fail(401, "Unauthorized")
    ensures caller.Some? && UserByUid(t, caller.value.sub).None? ==> r == Fail(404, "User not found")
    ensures caller.Some? && UserByUid(t, caller.value.sub).Some? ==>
      var lim, off := ParseInt(OrElse(limit, "50")), ParseInt(OrElse(offset, "0"));
      && (lim.None? || off.None? ==> r == Fail(500, "Internal server error"))
      && (lim.Some? && off.Some? ==> r == Ok(ViewAll(OwnResources(t, UserByUid(t, caller.value.sub).value, lim.value, off.value))))
  {
    if caller.None? then Fail(401, "Unauthorized")
    else match UserByUid(t, caller.value.sub)
      case None => Fail(404, "User not found")
      case Some(userId) =>
        var lim, off := ParseInt(OrElse(limit, "50")), ParseInt(OrElse(offset, "0"));
        if lim.None? || off.None? then Fail(500, "Internal server error")
        else Ok(ViewAll(OwnResources(t, userId, lim.value, off.value)))
  }

  /** Only the user's own stored resources are listed. */
  lemma OwnResourcesSound(t: Tables, userId: nat, limit: int, offset: int)
    requires Valid(t)
    ensures var r := OwnResources(t, userId, limit, offset);
      forall i :: 0 <= i < |r| ==> r[i].id in t.resources && t.resources[r[i].id] == r[i] && r[i].creatorId == userId
  {
    var p := (r: ResourceRow) => r.creatorId == userId;
    var r := OwnResources(t, userId, limit, offset);
    SelectedRowsSound(t.resources, p, 0, t.nextResourceId, CreatedLater, limit, offset);
    forall i | 0 <= i < |r|
      ensures r[i].id in t.resources && t.resources[r[i].id] == r[i] && r[i].creatorId == userId
    {
      assert r[i] in r;
      var id :| id in t.resources && t.resources[id] == r[i] && p(r[i]);
    }
  }

  /** The list comes newest first and holds at most `limit` resources. */
  lemma OwnResourcesNewestFirst(t: Tables, userId: nat, limit: int, offset: int)
    requires Valid(t)
    ensures var r := OwnResources(t, userId, limit, offset);
      && (forall i :: 0 <= i < |r| - 1 ==> r[i].createdTs >= r[i + 1].createdTs)
      && (limit >= 0 ==> |r| <= limit)
  {
    var ids := IdsWhere(t.resources, (r: ResourceRow) => r.creatorId == userId, 0, t.nextResourceId);
    var rows := RowsOf(t.resources, ids);
    assert Asymmetric(CreatedLater);
    SortSorted(rows, CreatedLater);
  }

  /** `DELETE FROM memo_resource WHERE resource_id = ?`: the links to other resources, in order. */
  function WithoutResource(links: seq<Link>, resourceId: int): (r: seq<Link>)
    ensures forall l :: l in r <==> l in links && l.otherId != resourceId
  {
    if |links| == 0 then []
    else
      var rest := WithoutResource(links[1..], resourceId);
      assert forall l :: l in links <==> l == links[0] || l in links[1..];
      if links[0].otherId == resourceId then rest else [links[0]] + rest
  }

  /** `SELECT * FROM resource WHERE id = ? AND creator_id = ?` with the path id read by `parseInt`. */
  function OwnedResource(t: Tables, idParam: string, userId: nat): (r: Option<nat>)
    ensures r.Some? <==> ParseInt(idParam).Some? && ParseInt(idParam).value >= 0
                         && ParseInt(idParam).value in t.resources && t.resources[ParseInt(idParam).value].creatorId == userId
    ensures r.Some? ==> r.value == ParseInt(idParam).value
  {
    match ParseInt(idParam)
    case Some(n) => if n >= 0 && n in t.resources && t.resources[n].creatorId == userId then Some(n) else None
    case None => None
  }

  /**
   * `DELETE /:id`: a resource that is missing or belongs to someone else is
   * "not found"; otherwise every memo link to it is removed, then its row.
   */
  method DeleteResource(db: Database, idParam: string, caller: Option<Claims>) returns (reply: Response<string>)
    requires Valid(db.State())
    modifies db
    ensures Valid(db.State())
    ensures reply.Fail? ==> db.State() == old(db.State())
    ensures caller.None? ==> reply == Fail(401, "Unauthorized")
    ensures caller.Some? && old(UserByUid(db.State(), caller.value.sub)).None? ==> reply == Fail(404, "User not found")
    ensures (caller.Some? && old(UserByUid(db.State(), caller.value.sub)).Some?
             && old(OwnedResource(db.State(), idParam, UserByUid(db.State(), caller.value.sub).value)).None?) ==>
      reply == Fail(404, "Resource not found")
    ensures (caller.Some? && old(UserByUid(db.State(), caller.value.sub)).Some?
             && old(OwnedResource(db.State(), idParam, UserByUid(db.State(), caller.value.sub).value)).Some?) ==>
      && var id := old(OwnedResource(db.State(), idParam, UserByUid(db.State(), caller.value.sub).value)).value;
      && db.State() == old(db.State()).(resources := old(db.resources) - {id},
                                        memoResources := WithoutResource(old(db.memoResources), id))
      && reply == Ok("Resource deleted successfully")
  {
    if caller.None? {
      return Fail(401, "Unauthorized");
    }
    var user := UserByUid(db.State(), caller.value.sub);
    if user.None? {
      return Fail(404, "User not found");
    }
    var found := OwnedResource(db.State(), idParam, user.value);
    if found.None? {
      return Fail(404, "Resource not found");
    }
    var resourceId := found.value;
    db.memoResources := WithoutResource(db.memoResources, resourceId);
    db.resources := db.resources - {resourceId};
    return Ok("Resource deleted successfully");
  }

  /** After a delete no memo lists the resource, and every memo keeps its links to the others. */
  lemma DeletedResourceUnlinked(links: seq<Link>, resourceId: int, memoId: int)
    ensures resourceId !in LinkedIds(WithoutResource(links, resourceId), memoId)
    ensures forall x :: x != resourceId ==> (x in LinkedIds(WithoutResource(links, resourceId), memoId) <==> x in LinkedIds(links, memoId))
  {
  }
}
