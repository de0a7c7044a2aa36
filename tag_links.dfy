/**
 * `createTagIfNotExists` and `updateMemoTags` of backend/src/utils.ts: a
 * memo's `memo_tag` links are replaced by one link per tag extracted from its
 * content, each tag found or created by (name, creator). Database failures,
 * which the code logs and skips tag by tag, are not modelled.
 */
module TagLinks {
  import opened Wrappers
  import opened Schema
  import opened TagExtract

  /** `SELECT id FROM tag WHERE name = ? AND creator_id = ?`, first row. */
  function TagIdFor(t: Tables, creatorId: nat, name: string): (r: Option<nat>)
    ensures r.Some? ==> r.value in t.tags && t.tags[r.value].name == name && t.tags[r.value].creatorId == creatorId
    ensures r.None? && Valid(t) ==> forall id :: id in t.tags ==> !(t.tags[id].name == name && t.tags[id].creatorId == creatorId)
  {
    FirstWhere(t.tags, (g: TagRow) => g.name == name && g.creatorId == creatorId, 0, t.nextTagId)
  }

  /** The tags table of `after` extends that of `before` without changing any row. */
  predicate TagsGrow(before: map<nat, TagRow>, after: map<nat, TagRow>) {
    forall id :: id in before ==> id in after && after[id] == before[id]
  }

  /** No tag of `creatorId` in `tags` has the name `name`. */
  predicate NoTagNamed(tags: map<nat, TagRow>, creatorId: nat, name: string) {
    forall j :: j in tags ==> !(tags[j].creatorId == creatorId && tags[j].name == name)
  }

  /**
   * The rows `after` holds beyond `before` are tags of `creatorId`, each
   * named in `names` and created because no tag of that name and creator
   * existed before; no two of them share a name.
   */
  predicate NewTagsFor(before: map<nat, TagRow>, after: map<nat, TagRow>, creatorId: nat, names: seq<string>) {
    && (forall id :: id in after && id !in before ==>
         && after[id].creatorId == creatorId && after[id].name in names
         && NoTagNamed(before, creatorId, after[id].name))
    && (forall i, j :: i in after && j in after && i !in before && j !in before && i != j ==>
         after[i].name != after[j].name)
  }

  /** The tags two turns of the loop create are those the first created and those the second created. */
  lemma NewTagsCompose(a: map<nat, TagRow>, b: map<nat, TagRow>, c: map<nat, TagRow>,
                       creatorId: nat, names: seq<string>, name: string)
    requires TagsGrow(a, b) && TagsGrow(b, c)
    requires NewTagsFor(a, b, creatorId, names)
    requires NewTagsFor(b, c, creatorId, [name])
    ensures NewTagsFor(a, c, creatorId, names + [name])
  {
    forall id | id in c && id !in a
      ensures c[id].creatorId == creatorId && c[id].name in names + [name] && NoTagNamed(a, creatorId, c[id].name)
    {
      if id in b {
        assert c[id] == b[id];
      } else {
        assert c[id].name == name;
      }
    }
    forall i, j | i in c && j in c && i !in a && j !in a && i != j
      ensures c[i].name != c[j].name
    {
      if i in b && j in b {
        assert c[i] == b[i] && c[j] == b[j];
      } else if i in b {
        assert !(b[i].creatorId == creatorId && b[i].name == c[j].name);
      } else if j in b {
        assert !(b[j].creatorId == creatorId && b[j].name == c[i].name);
      }
    }
  }

  /**
   * `createTagIfNotExists`: the id of the creator's tag of that name, which
   * is inserted with the next id when there is none.
   */
  method CreateTagIfNotExists(db: Database, creatorId: nat, tagName: string, now: int) returns (id: nat)
    requires Valid(db.State())
    modifies db
    ensures Valid(db.State())
    ensures id in db.tags && db.tags[id].name == tagName && db.tags[id].creatorId == creatorId
    ensures old(TagIdFor(db.State(), creatorId, tagName)).Some? ==>
      id == old(TagIdFor(db.State(), creatorId, tagName)).value && db.State() == old(db.State())
    ensures old(TagIdFor(db.State(), creatorId, tagName)).None? ==>
      id == old(db.nextTagId)
      && db.State() == old(db.State()).(tags := old(db.tags)[id := TagRow(id, creatorId, tagName, now)], nextTagId := id + 1)
  {
    var existing := TagIdFor(db.State(), creatorId, tagName);
    if existing.Some? {
      return existing.value;
    }
    id := db.nextTagId;
    db.tags := db.tags[id := TagRow(id, creatorId, tagName, now)];
    db.nextTagId := id + 1;
  }

  lemma {:induction false} LinkedTagNamesAppend(tags: map<nat, TagRow>, a: seq<Link>, b: seq<Link>, memoId: int)
    ensures LinkedTagNames(tags, a + b, memoId) == LinkedTagNames(tags, a, memoId) + LinkedTagNames(tags, b, memoId)
    decreases |a|
  {
    if |a| == 0 {
      assert a + b == b;
    } else {
      assert (a + b)[1..] == a[1..] + b;
      LinkedTagNamesAppend(tags, a[1..], b, memoId);
    }
  }

  /** Links of `memoId`, one per name, each to a tag of that name owned by `creatorId`. */
  predicate LinksName(tags: map<nat, TagRow>, links: seq<Link>, memoId: int, creatorId: nat, names: seq<string>) {
    |links| == |names|
    && forall k :: 0 <= k < |links| ==>
      && links[k].memoId == memoId && links[k].otherId >= 0 && links[k].otherId in tags
      && tags[links[k].otherId].name == names[k] && tags[links[k].otherId].creatorId == creatorId
  }

  lemma LinksNameGrow(before: map<nat, TagRow>, after: map<nat, TagRow>, links: seq<Link>, memoId: int, creatorId: nat, names: seq<string>)
    requires TagsGrow(before, after)
    requires LinksName(before, links, memoId, creatorId, names)
    ensures LinksName(after, links, memoId, creatorId, names)
  {
  }

  lemma LinksNameSnoc(before: map<nat, TagRow>, after: map<nat, TagRow>, links: seq<Link>, l: Link,
                      memoId: int, creatorId: nat, names: seq<string>, name: string)
    requires TagsGrow(before, after)
    requires LinksName(before, links, memoId, creatorId, names)
    requires l.memoId == memoId && l.otherId >= 0 && l.otherId in after
    requires after[l.otherId].name == name && after[l.otherId].creatorId == creatorId
    ensures LinksName(after, links + [l], memoId, creatorId, names + [name])
  {
    LinksNameGrow(before, after, links, memoId, creatorId, names);
  }

  lemma {:induction false} LinkedTagNamesOfLinks(tags: map<nat, TagRow>, links: seq<Link>, memoId: int, creatorId: nat, names: seq<string>)
    requires LinksName(tags, links, memoId, creatorId, names)
    ensures LinkedTagNames(tags, links, memoId) == names
    decreases |links|
  {
    if |links| > 0 {
      LinkedTagNamesOfLinks(tags, links[1..], memoId, creatorId, names[1..]);
      assert names == [names[0]] + names[1..];
    }
  }

  lemma {:induction false} LinkedTagNamesOfOthers(tags: map<nat, TagRow>, links: seq<Link>, memoId: int)
    requires forall k :: 0 <= k < |links| ==> links[k].memoId != memoId
    ensures LinkedTagNames(tags, links, memoId) == []
    decreases |links|
  {
    if |links| > 0 {
      LinkedTagNamesOfOthers(tags, links[1..], memoId);
    }
  }

  /** One turn of the loop of `updateMemoTags`: get or create the tag, then link it to the memo. */
  method LinkTag(db: Database, memoId: nat, creatorId: nat, tagName: string, now: int) returns (tagId: nat)
    requires Valid(db.State())
    modifies db
    ensures Valid(db.State())
    ensures tagId in db.tags && db.tags[tagId].name == tagName && db.tags[tagId].creatorId == creatorId
    ensures TagsGrow(old(db.tags), db.tags)
    ensures NewTagsFor(old(db.tags), db.tags, creatorId, [tagName])
    ensures db.memoTags == old(db.memoTags) + [Link(memoId, tagId)]
    ensures db.State() == old(db.State()).(tags := db.tags, nextTagId := db.nextTagId, memoTags := db.memoTags)
  {
    tagId := CreateTagIfNotExists(db, creatorId, tagName, now);
    db.memoTags := db.memoTags + [Link(memoId, tagId)];
  }

  /** The link table `updateMemoTags` leaves: other memos' links, then the new ones. */
  lemma ReplacedLinks(tags: map<nat, TagRow>, kept: seq<Link>, added: seq<Link>, memoId: int, creatorId: nat, names: seq<string>)
    requires forall k :: 0 <= k < |kept| ==> kept[k].memoId != memoId
    requires LinksName(tags, added, memoId, creatorId, names)
    ensures LinkedTagNames(tags, kept + added, memoId) == names
    ensures forall l :: l in kept + added && l.memoId == memoId ==>
      l.otherId >= 0 && l.otherId in tags && tags[l.otherId].creatorId == creatorId
    ensures forall l: Link :: l.memoId != memoId ==> (l in kept + added <==> l in kept)
  {
    LinkedTagNamesAppend(tags, kept, added, memoId);
    LinkedTagNamesOfOthers(tags, kept, memoId);
    LinkedTagNamesOfLinks(tags, added, memoId, creatorId, names);
    forall l | l in kept + added && l.memoId == memoId
      ensures l.otherId >= 0 && l.otherId in tags && tags[l.otherId].creatorId == creatorId
    {
      assert l !in kept;
      var k :| 0 <= k < |added| && added[k] == l;
    }
  }

  /**
   * `updateMemoTags`: afterwards the tag names linked to the memo are exactly
   * the tags extracted from its content, in the same order, each a tag of the
   * memo's creator; the links of other memos and every existing tag row stay
   * as they were, and no other table changes.
   */
  method UpdateMemoTags(db: Database, memoId: nat, creatorId: nat, content: string, now: int)
    requires Valid(db.State())
    modifies db
    ensures Valid(db.State())
    ensures LinkedTagNames(db.tags, db.memoTags, memoId) == Extract(content)
    ensures forall l :: l in db.memoTags && l.memoId == memoId ==>
      l.otherId >= 0 && l.otherId in db.tags && db.tags[l.otherId].creatorId == creatorId
    ensures forall l: Link :: l.memoId != memoId ==> (l in db.memoTags <==> l in old(db.memoTags))
    ensures TagsGrow(old(db.tags), db.tags)
    ensures NewTagsFor(old(db.tags), db.tags, creatorId, Extract(content))
    ensures db.State() == old(db.State()).(tags := db.tags, nextTagId := db.nextTagId, memoTags := db.memoTags)
  {
    var tags := ExtractTagsFromContent(content);
    var kept := WithoutMemo(db.memoTags, memoId);
    db.memoTags := kept;
    ghost var added := LinkTags(db, memoId, creatorId, tags, now);
    ReplacedLinks(db.tags, kept, added, memoId, creatorId, tags);
  }

  /** The loop of `updateMemoTags`: one new link per name, in order, appended to the link table. */
  method LinkTags(db: Database, memoId: nat, creatorId: nat, names: seq<string>, now: int) returns (ghost added: seq<Link>)
    requires Valid(db.State())
    modifies db
    ensures Valid(db.State())
    ensures db.memoTags == old(db.memoTags) + added
    ensures LinksName(db.tags, added, memoId, creatorId, names)
    ensures TagsGrow(old(db.tags), db.tags)
    ensures NewTagsFor(old(db.tags), db.tags, creatorId, names)
    ensures db.State() == old(db.State()).(tags := db.tags, nextTagId := db.nextTagId, memoTags := db.memoTags)
  {
    added := [];
    var i := 0;
    while i < |names|
      invariant 0 <= i <= |names|
      invariant Valid(db.State())
      invariant db.memoTags == old(db.memoTags) + added
      invariant LinksName(db.tags, added, memoId, creatorId, names[..i])
      invariant TagsGrow(old(db.tags), db.tags)
      invariant NewTagsFor(old(db.tags), db.tags, creatorId, names[..i])
      invariant db.State() == old(db.State()).(tags := db.tags, nextTagId := db.nextTagId, memoTags := db.memoTags)
    {
      ghost var tagsBefore := db.tags;
      var tagId := LinkTag(db, memoId, creatorId, names[i], now);
      LinksNameSnoc(tagsBefore, db.tags, added, Link(memoId, tagId), memoId, creatorId, names[..i], names[i]);
      NewTagsCompose(old(db.tags), tagsBefore, db.tags, creatorId, names[..i], names[i]);
      added := added + [Link(memoId, tagId)];
      assert names[..i + 1] == names[..i] + [names[i]];
      i := i + 1;
    }
    assert names[..i] == names;
  }
}
