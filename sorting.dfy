/**
 * The orderings the core relies on: `ORDER BY created_ts DESC` followed by
 * `LIMIT ? OFFSET ?` in the list queries, and `Array.prototype.sort`, which
 * is stable, in the tag selector. Both are modelled by one stable insertion
 * sort over a strict "goes before" relation.
 */
module Sorting {

  /** Puts `x` after the elements that go strictly before it and before all the others. */
  function Insert<T>(x: T, r: seq<T>, before: (T, T) -> bool): (out: seq<T>)
    ensures multiset(out) == multiset(r) + multiset{x}
    ensures |out| == |r| + 1
  {
    if |r| == 0 || !before(r[0], x) then [x] + r
    else
      var rest := Insert(x, r[1..], before);
      assert r == [r[0]] + r[1..];
      [r[0]] + rest
  }

  /** A stable sort: elements that neither goes before the other keep their input order. */
  function Sort<T>(s: seq<T>, before: (T, T) -> bool): (r: seq<T>)
    ensures multiset(r) == multiset(s) && |r| == |s|
  {
    if |s| == 0 then []
    else
      assert s == [s[0]] + s[1..];
      Insert(s[0], Sort(s[1..], before), before)
  }

  /** No element is followed by one that goes strictly before it. */
  predicate Sorted<T>(r: seq<T>, before: (T, T) -> bool) {
    forall i :: 0 <= i < |r| - 1 ==> !before(r[i + 1], r[i])
  }

  /** The relation never holds both ways. */
  ghost predicate Asymmetric<T(!new)>(before: (T, T) -> bool) {
    forall a: T, b: T :: before(a, b) ==> !before(b, a)
  }

  lemma {:induction false} InsertSorted<T(!new)>(x: T, r: seq<T>, before: (T, T) -> bool)
    requires Asymmetric(before)
    requires Sorted(r, before)
    ensures Sorted(Insert(x, r, before), before)
    ensures |r| > 0 ==> Insert(x, r, before)[0] == x || Insert(x, r, before)[0] == r[0]
  {
    if |r| > 0 && before(r[0], x) {
      InsertSorted(x, r[1..], before);
      var rest := Insert(x, r[1..], before);
      var out := [r[0]] + rest;
      forall i | 0 <= i < |out| - 1 ensures !before(out[i + 1], out[i]) {
        if i == 0 {
          if |r| > 1 && rest[0] == r[1] { assert !before(r[1], r[0]); }
        } else {
          assert out[i] == rest[i - 1] && out[i + 1] == rest[i];
        }
      }
    }
  }

  /** Sorting gives a permutation of the input in which nothing precedes an element that goes before it. */
  lemma {:induction false} SortSorted<T(!new)>(s: seq<T>, before: (T, T) -> bool)
    requires Asymmetric(before)
    ensures Sorted(Sort(s, before), before)
    ensures multiset(Sort(s, before)) == multiset(s)
  {
    if |s| > 0 {
      SortSorted(s[1..], before);
      InsertSorted(s[0], Sort(s[1..], before), before);
    }
  }

  /** Where a window starts: a negative offset counts as zero. */
  function StartOf(offset: int): nat {
    if offset < 0 then 0 else offset
  }

  /**
   * SQLite's `LIMIT limit OFFSET offset`: the rows from the offset on, in
   * order, at most `limit` of them; a negative limit is no limit. The window
   * stops short of `limit` rows only at the end of the input, and with no
   * offset and no binding limit it is the whole input.
   */
  function Window<T>(rows: seq<T>, limit: int, offset: int): (r: seq<T>)
    ensures limit >= 0 ==> |r| <= limit
    ensures forall i :: 0 <= i < |r| ==> StartOf(offset) + i < |rows| && r[i] == rows[StartOf(offset) + i]
    ensures limit < 0 || |r| < limit ==> StartOf(offset) + |r| >= |rows|
    ensures offset <= 0 && (limit < 0 || limit >= |rows|) ==> r == rows
  {
    var start := StartOf(offset);
    assert rows[0..] == rows;
    if start >= |rows| then []
    else if limit < 0 || start + limit > |rows| then rows[start..]
    else rows[start..start + limit]
  }
}
