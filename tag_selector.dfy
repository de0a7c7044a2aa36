/**
 * The tag selector of the memo editor
 * (frontend/src/components/MemoEditor/ActionButton/TagSelector.tsx): the
 * order in which the user's tags are listed, and the text a click on a tag
 * inserts into the editor. `localeCompare` is modelled as code-point order.
 */
module TagSelector {
  import opened Text
  import opened Sorting
  import opened TagExtract

  /** One entry of `Object.entries(tagCount)`. */
  datatype TagEntry = TagEntry(name: string, count: int)

  /** `a.localeCompare(b) < 0`, in code-point order: lexicographic, a proper prefix first. */
  predicate NameLess(a: string, b: string)
    decreases |a|
  {
    if |a| == 0 then |b| > 0
    else if |b| == 0 then false
    else a[0] < b[0] || (a[0] == b[0] && NameLess(a[1..], b[1..]))
  }

  lemma {:induction false} NameLessIrreflexive(a: string)
    ensures !NameLess(a, a)
    decreases |a|
  {
    if |a| > 0 {
      NameLessIrreflexive(a[1..]);
    }
  }

  lemma {:induction false} NameLessTransitive(a: string, b: string, c: string)
    requires NameLess(a, b) && NameLess(b, c)
    ensures NameLess(a, c)
    decreases |a|
  {
    if |a| > 0 && a[0] == b[0] && b[0] == c[0] {
      NameLessTransitive(a[1..], b[1..], c[1..]);
    }
  }

  lemma {:induction false} NameLessTotal(a: string, b: string)
    requires a != b
    ensures NameLess(a, b) || NameLess(b, a)
    decreases |a|
  {
    if |a| > 0 && |b| > 0 && a[0] == b[0] {
      assert a == [a[0]] + a[1..] && b == [b[0]] + b[1..];
      NameLessTotal(a[1..], b[1..]);
    }
  }

  /** The first comparator, `(a, b) => a[0].localeCompare(b[0])`, as "goes before". */
  predicate NameBefore(a: TagEntry, b: TagEntry) {
    NameLess(a.name, b.name)
  }

  /** The second comparator, `(a, b) => b[1] - a[1]`, as "goes before": the larger count first. */
  predicate CountBefore(a: TagEntry, b: TagEntry) {
    a.count > b.count
  }

  /** The keys of an object are distinct. */
  predicate DistinctNames(s: seq<TagEntry>) {
    forall i, j :: 0 <= i < j < |s| ==> s[i].name != s[j].name
  }

  predicate NameSorted(r: seq<TagEntry>) {
    forall i, j :: 0 <= i < j < |r| ==> NameLess(r[i].name, r[j].name)
  }

  /** `a` is listed before `b`: a larger count, or the same count and a smaller name. */
  predicate Ahead(a: TagEntry, b: TagEntry) {
    a.count > b.count || (a.count == b.count && NameLess(a.name, b.name))
  }

  predicate Ranked(r: seq<TagEntry>) {
    forall i, j :: 0 <= i < j < |r| ==> Ahead(r[i], r[j])
  }

  /** The entries in the order of the two sorts: by name, then (stably) by count. */
  function Rank(entries: seq<TagEntry>): seq<TagEntry> {
    Sort(Sort(entries, NameBefore), CountBefore)
  }

  function Names(r: seq<TagEntry>): (names: seq<string>)
    ensures |names| == |r| && forall k :: 0 <= k < |r| ==> names[k] == r[k].name
  {
    seq(|r|, k requires 0 <= k < |r| => r[k].name)
  }

  /** `tags`: the names of the entries in ranked order. */
  function TagList(entries: seq<TagEntry>): seq<string> {
    Names(Rank(entries))
  }

  /** The elements of `Insert(x, r, …)` are `x` and those of `r`. */
  lemma InsertMembers(x: TagEntry, r: seq<TagEntry>, before: (TagEntry, TagEntry) -> bool)
    ensures forall e :: e in Insert(x, r, before) <==> e == x || e in r
  {
    var out := Insert(x, r, before);
    assert multiset(out) == multiset(r) + multiset{x};
    forall e ensures e in out <==> e == x || e in r {
      assert e in out <==> e in multiset(out);
      assert e in r <==> e in multiset(r);
    }
  }

  lemma {:induction false} InsertNameSorted(x: TagEntry, r: seq<TagEntry>)
    requires NameSorted(r)
    requires forall e :: e in r ==> e.name != x.name
    ensures NameSorted(Insert(x, r, NameBefore))
    decreases |r|
  {
    var out := Insert(x, r, NameBefore);
    if |r| == 0 || !NameBefore(r[0], x) {
      if |r| > 0 {
        NameLessTotal(x.name, r[0].name);
        forall j | 0 <= j < |r| ensures NameLess(x.name, r[j].name) {
          if j > 0 {
            NameLessTransitive(x.name, r[0].name, r[j].name);
          }
        }
      }
      assert forall j :: 1 <= j < |out| ==> out[j] == r[j - 1];
    } else {
      InsertNameSorted(x, r[1..]);
      var rest := Insert(x, r[1..], NameBefore);
      InsertMembers(x, r[1..], NameBefore);
      forall j | 1 <= j < |out| ensures NameLess(out[0].name, out[j].name) {
        assert out[j] == rest[j - 1];
        if out[j] != x {
          assert out[j] in rest;
          var k :| 0 <= k < |r[1..]| && r[1..][k] == out[j];
          assert r[k + 1] == out[j];
        }
      }
    }
  }

  /** With distinct names, the first sort orders the entries strictly by name. */
  lemma {:induction false} SortByName(s: seq<TagEntry>)
    requires DistinctNames(s)
    ensures NameSorted(Sort(s, NameBefore))
    decreases |s|
  {
    if |s| > 0 {
      SortByName(s[1..]);
      var r := Sort(s[1..], NameBefore);
      forall e | e in r ensures e.name != s[0].name {
        assert e in multiset(r);
        var k :| 0 <= k < |s[1..]| && s[1..][k] == e;
        assert s[k + 1] == e;
      }
      InsertNameSorted(s[0], r);
    }
  }

  lemma {:induction false} InsertRanked(x: TagEntry, r: seq<TagEntry>)
    requires Ranked(r)
    requires forall e :: e in r ==> NameLess(x.name, e.name)
    ensures Ranked(Insert(x, r, CountBefore))
    decreases |r|
  {
    var out := Insert(x, r, CountBefore);
    if |r| == 0 || !CountBefore(r[0], x) {
      forall j | 0 <= j < |r| ensures Ahead(x, r[j]) {
        assert r[j] in r;
        if j > 0 {
          assert Ahead(r[0], r[j]);
        }
      }
      assert forall j :: 1 <= j < |out| ==> out[j] == r[j - 1];
    } else {
      InsertRanked(x, r[1..]);
      var rest := Insert(x, r[1..], CountBefore);
      InsertMembers(x, r[1..], CountBefore);
      forall j | 1 <= j < |out| ensures Ahead(out[0], out[j]) {
        assert out[j] == rest[j - 1];
        if out[j] != x {
          assert out[j] in rest;
          var k :| 0 <= k < |r[1..]| && r[1..][k] == out[j];
          assert r[k + 1] == out[j];
        }
      }
    }
  }

  /**
   * The second sort keeps entries of equal count in the order of the first:
   * on a list sorted by name it ranks by count and then by name.
   */
  lemma {:induction false} SortByCountKeepsNameOrder(s: seq<TagEntry>)
    requires NameSorted(s)
    ensures Ranked(Sort(s, CountBefore))
    decreases |s|
  {
    if |s| > 0 {
      SortByCountKeepsNameOrder(s[1..]);
      var r := Sort(s[1..], CountBefore);
      forall e | e in r ensures NameLess(s[0].name, e.name) {
        assert e in multiset(r);
        var k :| 0 <= k < |s[1..]| && s[1..][k] == e;
        assert s[k + 1] == e;
      }
      InsertRanked(s[0], r);
    }
  }

  lemma {:induction false} InsertDistinct(x: TagEntry, r: seq<TagEntry>, before: (TagEntry, TagEntry) -> bool)
    requires DistinctNames(r)
    requires forall e :: e in r ==> e.name != x.name
    ensures DistinctNames(Insert(x, r, before))
    decreases |r|
  {
    if |r| > 0 && before(r[0], x) {
      InsertDistinct(x, r[1..], before);
      var rest := Insert(x, r[1..], before);
      var out := [r[0]] + rest;
      InsertMembers(x, r[1..], before);
      forall j | 1 <= j < |out| ensures out[0].name != out[j].name {
        assert out[j] == rest[j - 1];
        if out[j] != x {
          assert out[j] in rest;
          var k :| 0 <= k < |r[1..]| && r[1..][k] == out[j];
          assert r[k + 1] == out[j];
        }
      }
      assert forall i, j :: 1 <= i < j < |out| ==> out[i] == rest[i - 1] && out[j] == rest[j - 1];
    } else {
      var out := [x] + r;
      assert forall j :: 1 <= j < |out| ==> out[j] == r[j - 1];
    }
  }

  lemma {:induction false} SortDistinct(s: seq<TagEntry>, before: (TagEntry, TagEntry) -> bool)
    requires DistinctNames(s)
    ensures DistinctNames(Sort(s, before))
    decreases |s|
  {
    if |s| > 0 {
      SortDistinct(s[1..], before);
      var r := Sort(s[1..], before);
      forall e | e in r ensures e.name != s[0].name {
        assert e in multiset(r);
        var k :| 0 <= k < |s[1..]| && s[1..][k] == e;
        assert s[k + 1] == e;
      }
      InsertDistinct(s[0], r, before);
    }
  }

  /**
   * The listed tags are the keys of `tagCount`, each once: the same length,
   * the same names, and no name twice.
   */
  lemma TagListIsPermutation(entries: seq<TagEntry>)
    requires DistinctNames(entries)
    ensures |TagList(entries)| == |entries|
    ensures forall n :: n in TagList(entries) <==> n in Names(entries)
    ensures forall i, j :: 0 <= i < j < |TagList(entries)| ==> TagList(entries)[i] != TagList(entries)[j]
  {
    var byName := Sort(entries, NameBefore);
    var ranked := Rank(entries);
    SortDistinct(entries, NameBefore);
    SortDistinct(byName, CountBefore);
    var tags := TagList(entries);
    forall n ensures n in tags <==> n in Names(entries) {
      if n in tags {
        var k :| 0 <= k < |tags| && tags[k] == n;
        assert ranked[k] in multiset(ranked);
        assert ranked[k] in multiset(entries);
        var j :| 0 <= j < |entries| && entries[j] == ranked[k];
        assert Names(entries)[j] == n;
      }
      if n in Names(entries) {
        var j :| 0 <= j < |entries| && Names(entries)[j] == n;
        assert entries[j] in multiset(entries);
        assert entries[j] in multiset(ranked);
        var k :| 0 <= k < |ranked| && ranked[k] == entries[j];
        assert tags[k] == n;
      }
    }
  }

  /**
   * The tags are listed by count, largest first, and tags of equal count by
   * name; the tie-break holds because the second sort is stable.
   */
  lemma TagListOrder(entries: seq<TagEntry>)
    requires DistinctNames(entries)
    ensures |Rank(entries)| == |entries| && TagList(entries) == Names(Rank(entries))
    ensures forall i, j :: 0 <= i < j < |Rank(entries)| ==>
      Rank(entries)[i].count > Rank(entries)[j].count
      || (Rank(entries)[i].count == Rank(entries)[j].count && NameLess(TagList(entries)[i], TagList(entries)[j]))
  {
    SortByName(entries);
    SortByCountKeepsNameOrder(Sort(entries, NameBefore));
  }

  /** `line.slice(-1)` is neither a space nor an ideographic space, and the line is not empty. */
  predicate NeedsNewline(line: string) {
    line != "" && line[|line| - 1] != ' ' && line[|line| - 1] != '\U{3000}'
  }

  /** The text `handleTagClick` inserts for the cursor's line: a newline when needed, then `#tag `. */
  function TagInsertion(line: string, tag: string): (ins: string)
    ensures ins == "#" + tag + " " || ins == "\n#" + tag + " "
    ensures ins[0] == '\n' <==> NeedsNewline(line)
  {
    if NeedsNewline(line) then "\n" + ("#" + tag + " ") else "#" + tag + " "
  }

  /** The start of the line holding position `k`: just after the last newline before it. */
  function LineStart(s: string, k: nat): (r: nat)
    requires k <= |s|
    ensures r <= k && (r == 0 || s[r - 1] == '\n')
    ensures forall i :: r <= i < k ==> s[i] != '\n'
  {
    if k == 0 || s[k - 1] == '\n' then k else LineStart(s, k - 1)
  }

  /** The end of the line holding position `k`: the first newline at or after it, or the end of the text. */
  function LineEnd(s: string, k: nat): (r: nat)
    requires k <= |s|
    ensures k <= r <= |s| && (r == |s| || s[r] == '\n')
    ensures forall i :: k <= i < r ==> s[i] != '\n'
    decreases |s| - k
  {
    if k == |s| || s[k] == '\n' then k else LineEnd(s, k + 1)
  }

  /** `getLine(getCursorLineNumber())`: the whole line the cursor is on, without its newline. */
  function CursorLine(s: string, k: nat): (line: string)
    requires k <= |s|
    ensures forall i :: 0 <= i < |line| ==> line[i] != '\n'
    ensures line == s[LineStart(s, k)..LineEnd(s, k)]
  {
    s[LineStart(s, k)..LineEnd(s, k)]
  }

  /** The text and cursor after a click on `tag` with the cursor at `cursor`. */
  function Click(content: string, cursor: nat, tag: string): (r: (string, nat))
    requires cursor <= |content|
    ensures cursor < r.1 <= |r.0|
    ensures r.0[..cursor] == content[..cursor] && r.0[r.1..] == content[cursor..]
    ensures r.0[cursor..r.1] == TagInsertion(CursorLine(content, cursor), tag)
  {
    var ins := TagInsertion(CursorLine(content, cursor), tag);
    var after := content[..cursor] + ins + content[cursor..];
    assert after[..cursor] == content[..cursor];
    assert after[cursor..cursor + |ins|] == ins;
    assert after[cursor + |ins|..] == content[cursor..];
    (after, cursor + |ins|)
  }

  /** `tag` is a whole run the tag expression can capture: non-empty, without white space or `#`. */
  predicate IsTagRun(tag: string) {
    |tag| > 0 && forall i :: 0 <= i < |tag| ==> IsTagChar(tag[i])
  }

  /** A `#`, a tag run and a space at `p`: the expression matches there and captures exactly the run. */
  lemma RunAfterHash(s: string, p: nat, tag: string)
    requires IsTagRun(tag) && p + |tag| + 2 <= |s| && s[p..p + |tag| + 2] == "#" + tag + " "
    ensures MatchStart(s, p) && RunAt(s, p) == tag
  {
    var w := s[p..p + |tag| + 2];
    var end := p + |tag| + 1;
    assert s[p] == w[0] && s[p + 1] == w[1];
    forall i | p + 1 <= i < end ensures IsTagChar(s[i]) && s[i] == tag[i - p - 1] {
      assert s[i] == w[i - p];
    }
    assert s[end] == w[|tag| + 1] == ' ';
    var e := RunEnd(s, p + 1);
    assert e == end;
    assert s[p + 1..e] == tag;
  }

  /**
   * The inserted text makes the tag one the backend extracts when the memo is
   * saved: the `#` is followed by the whole tag and then a space, whatever
   * surrounds the cursor.
   */
  lemma ClickedTagIsExtracted(content: string, cursor: nat, tag: string)
    requires cursor <= |content|
    requires IsTagRun(tag) && Keep(tag)
    ensures tag in Extract(Click(content, cursor, tag).0)
  {
    var (after, end) := Click(content, cursor, tag);
    var ins := after[cursor..end];
    var p := end - |tag| - 2;
    assert after[p..end] == ins[|ins| - |tag| - 2..];
    assert ins[|ins| - |tag| - 2..] == "#" + tag + " ";
    RunAfterHash(after, p, tag);
    ExtractComplete(after);
  }

  /**
   * With the cursor at the end of its line, the inserted `#` starts a line
   * or follows a space or an ideographic space.
   */
  lemma ClickStartsWord(content: string, cursor: nat, tag: string)
    requires cursor <= |content| && LineEnd(content, cursor) == cursor
    ensures var (after, end) := Click(content, cursor, tag);
      var p := end - |tag| - 2;
      0 <= p && after[p] == '#' && (p == 0 || after[p - 1] in {'\n', ' ', '\U{3000}'})
  {
    var (after, end) := Click(content, cursor, tag);
    var line := CursorLine(content, cursor);
    var ins := after[cursor..end];
    var p := end - |tag| - 2;
    assert after[p] == ins[p - cursor];
    if NeedsNewline(line) {
      assert after[p - 1] == ins[0];
    } else if p > 0 {
      assert p == cursor;
      assert after[p - 1] == content[..cursor][p - 1];
      if line != "" {
        assert line[|line| - 1] == content[cursor - 1];
      }
    }
  }

  /** The editor's buffer and cursor. */
  class Editor {
    var content: string
    var cursor: nat

    ghost predicate Valid()
      reads this
    {
      cursor <= |content|
    }

    constructor (content: string, cursor: nat)
      requires cursor <= |content|
      ensures Valid() && this.content == content && this.cursor == cursor
    {
      this.content := content;
      this.cursor := cursor;
    }

    /** The line the cursor is on. */
    function Line(): string
      reads this
      requires Valid()
    {
      CursorLine(content, cursor)
    }

    /** `insertText(text)`: the text goes in at the cursor, which moves to its end. */
    method InsertText(text: string)
      requires Valid()
      modifies this
      ensures Valid()
      ensures content == old(content)[..old(cursor)] + text + old(content)[old(cursor)..]
      ensures cursor == old(cursor) + |text|
    {
      content := content[..cursor] + text + content[cursor..];
      cursor := cursor + |text|;
    }
  }

  /**
   * `handleTagClick`: nothing when there is no editor; otherwise a newline
   * when the cursor's line needs one, then `#tag `, each inserted at the
   * cursor.
   */
  method HandleTagClick(editor: Editor?, tag: string)
    requires editor != null ==> editor.Valid()
    modifies editor
    ensures editor != null ==> (editor.Valid()
      && (editor.content, editor.cursor) == Click(old(editor.content), old(editor.cursor), tag))
  {
    if editor == null {
      return;
    }
    ghost var content, cursor := editor.content, editor.cursor;
    var line := editor.Line();
    if NeedsNewline(line) {
      editor.InsertText("\n");
    }
    editor.InsertText("#" + tag + " ");
    var after := content[..cursor] + TagInsertion(line, tag) + content[cursor..];
    if NeedsNewline(line) {
      assert editor.content == content[..cursor] + "\n" + ("#" + tag + " ") + content[cursor..];
    }
    assert editor.content == after;
  }
}
