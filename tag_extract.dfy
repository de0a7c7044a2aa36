/**
 * `extractTagsFromContent` of backend/src/utils.ts: the global regular
 * expression `#([^\s#]+)` run with `exec` until it finds nothing, each
 * captured run kept when it is at least two UTF-16 code units long and not
 * made only of ASCII digits, gathered in a `Set` and returned in insertion
 * order.
 */
module TagExtract {
  import opened Wrappers
  import opened Text

  /** `[^\s#]`. */
  predicate IsTagChar(c: char) {
    !IsJsSpace(c) && c != '#'
  }

  /** The end of the longest run of tag characters starting at `j`: the greedy `+`. */
  function RunEnd(s: string, j: nat): (e: nat)
    requires j <= |s|
    ensures j <= e <= |s|
    ensures forall k :: j <= k < e ==> IsTagChar(s[k])
    ensures e == |s| || !IsTagChar(s[e])
    decreases |s| - j
  {
    if j == |s| || !IsTagChar(s[j]) then j else RunEnd(s, j + 1)
  }

  /** A match of the expression can start at `i`: a `#` followed by a tag character. */
  predicate MatchStart(s: string, i: int) {
    0 <= i && i + 1 < |s| && s[i] == '#' && IsTagChar(s[i + 1])
  }

  /**
   * `regex.exec(s)` with `lastIndex == from`: the first match at or after
   * `from`, as the index of its `#` and the end of its captured run.
   */
  function NextMatch(s: string, from: nat): (m: Option<(nat, nat)>)
    requires from <= |s|
    ensures m.Some? ==> from <= m.value.0 && MatchStart(s, m.value.0) && m.value.1 == RunEnd(s, m.value.0 + 1)
    ensures forall i :: from <= i && (m.None? || i < m.value.0) ==> !MatchStart(s, i)
    decreases |s| - from
  {
    if from == |s| then None
    else if MatchStart(s, from) then Some((from, RunEnd(s, from + 1)))
    else NextMatch(s, from + 1)
  }

  /** The captured runs of every match from `from` on, in order; each search resumes where the last match ended. */
  function Matches(s: string, from: nat): seq<string>
    requires from <= |s|
    decreases |s| - from
  {
    match NextMatch(s, from)
    case None => []
    case Some((i, e)) => [s[i + 1..e]] + Matches(s, e)
  }

  /** `tag.length`: code points above U+FFFF count as two UTF-16 code units. */
  function Utf16Length(t: string): (n: nat)
    ensures n >= |t|
  {
    if |t| == 0 then 0 else (if t[0] as int >= 0x10000 then 2 else 1) + Utf16Length(t[1..])
  }

  /** `/^\d+$/.test(t)`; `\d` is ASCII only. */
  predicate AllDigits(t: string) {
    |t| > 0 && forall i :: 0 <= i < |t| ==> IsDecimalDigit(t[i])
  }

  /** The filter of the loop body. */
  predicate Keep(t: string) {
    Utf16Length(t) >= 2 && !AllDigits(t)
  }

  /** Adding the kept runs to the set `acc`, which lists its elements in insertion order. */
  function Collect(acc: seq<string>, ms: seq<string>): (r: seq<string>)
    ensures |acc| <= |r| && r[..|acc|] == acc
    decreases |ms|
  {
    if |ms| == 0 then acc
    else Collect(if Keep(ms[0]) && ms[0] !in acc then acc + [ms[0]] else acc, ms[1..])
  }

  /** What `extractTagsFromContent(s)` returns. */
  function Extract(s: string): seq<string> {
    Collect([], Matches(s, 0))
  }

  /** One search of `Matches`. */
  lemma MatchesStep(s: string, from: nat)
    requires from <= |s|
    ensures NextMatch(s, from).None? ==> Matches(s, from) == []
    ensures NextMatch(s, from).Some? ==> (Matches(s, from) ==
      [s[NextMatch(s, from).value.0 + 1..NextMatch(s, from).value.1]] + Matches(s, NextMatch(s, from).value.1))
  {
  }

  /** One step of `Collect`. */
  lemma CollectStep(acc: seq<string>, t: string, rest: seq<string>)
    ensures Collect(acc, [t] + rest) == Collect(if Keep(t) && t !in acc then acc + [t] else acc, rest)
  {
    assert ([t] + rest)[1..] == rest;
  }

  /** One turn of the loop: the next match, kept or not, and the search resumed at its end. */
  lemma ExtractStep(s: string, from: nat, acc: seq<string>, i: nat, e: nat)
    requires from <= |s| && NextMatch(s, from) == Some((i, e))
    ensures from < e && i + 1 <= e <= |s|
    ensures Collect(acc, Matches(s, from))
      == Collect(if Keep(s[i + 1..e]) && s[i + 1..e] !in acc then acc + [s[i + 1..e]] else acc, Matches(s, e))
  {
    MatchesStep(s, from);
    CollectStep(acc, s[i + 1..e], Matches(s, e));
  }

  /** The loop of `extractTagsFromContent`, over `lastIndex` and the set of tags. */
  method ExtractTagsFromContent(content: string) returns (tags: seq<string>)
    ensures tags == Extract(content)
  {
    tags := [];
    var lastIndex: nat := 0;
    while true
      invariant lastIndex <= |content|
      invariant Collect(tags, Matches(content, lastIndex)) == Extract(content)
      decreases |content| - lastIndex
    {
      var m := NextMatch(content, lastIndex);
      if m.None? {
        MatchesStep(content, lastIndex);
        break;
      }
      var (i, e) := m.value;
      var tag := content[i + 1..e];
      var next := if Keep(tag) && tag !in tags then tags + [tag] else tags;
      ExtractStep(content, lastIndex, tags, i, e);
      tags := next;
      lastIndex := e;
    }
  }

  /** The run captured after a `#` at `i`, up to the first white space, `#` or end of text. */
  function RunAt(s: string, i: nat): string
    requires MatchStart(s, i)
  {
    s[i + 1..RunEnd(s, i + 1)]
  }

  /** `t` is the whole run of tag characters that follows a `#` at `i`. */
  predicate TagAt(s: string, i: nat, t: string) {
    MatchStart(s, i) && t == RunAt(s, i)
  }

  /** Every captured run is the maximal run after some `#` at or after `from`. */
  lemma {:induction false} MatchesAreRuns(s: string, from: nat)
    requires from <= |s|
    ensures forall t :: t in Matches(s, from) ==> exists i: nat :: from <= i && TagAt(s, i, t)
    decreases |s| - from
  {
    match NextMatch(s, from)
    case None =>
    case Some((j, e)) =>
      MatchesAreRuns(s, e);
      var ms := Matches(s, from);
      assert ms == [s[j + 1..e]] + Matches(s, e);
      forall t | t in ms ensures exists i: nat :: from <= i && TagAt(s, i, t) {
        if t == s[j + 1..e] {
          assert TagAt(s, j, t);
        } else {
          assert t in Matches(s, e);
        }
      }
  }

  /** Every maximal run after a `#` at or after `from` is captured. */
  lemma {:induction false} RunsAreMatched(s: string, from: nat)
    requires from <= |s|
    ensures forall i: nat :: from <= i && MatchStart(s, i) ==> RunAt(s, i) in Matches(s, from)
    decreases |s| - from
  {
    match NextMatch(s, from)
    case None =>
    case Some((j, e)) =>
      RunsAreMatched(s, e);
      var ms := Matches(s, from);
      assert ms == [s[j + 1..e]] + Matches(s, e);
      forall i: nat | from <= i && MatchStart(s, i) ensures RunAt(s, i) in ms {
        if i != j {
          // a run holds no '#', so the next search starts at or before the next '#'
          assert j < i;
          assert !IsTagChar(s[i]);
          assert e <= i;
          assert RunAt(s, i) in Matches(s, e);
        }
      }
  }

  lemma {:induction false} CollectMembers(acc: seq<string>, ms: seq<string>)
    ensures forall t :: t in Collect(acc, ms) <==> t in acc || (t in ms && Keep(t))
    decreases |ms|
  {
    if |ms| > 0 {
      var acc' := if Keep(ms[0]) && ms[0] !in acc then acc + [ms[0]] else acc;
      CollectMembers(acc', ms[1..]);
      assert ms == [ms[0]] + ms[1..];
    }
  }

  predicate Distinct(xs: seq<string>) {
    forall a, b :: 0 <= a < b < |xs| ==> xs[a] != xs[b]
  }

  lemma {:induction false} CollectDistinct(acc: seq<string>, ms: seq<string>)
    requires Distinct(acc)
    ensures Distinct(Collect(acc, ms))
    decreases |ms|
  {
    if |ms| > 0 {
      var acc' := if Keep(ms[0]) && ms[0] !in acc then acc + [ms[0]] else acc;
      CollectDistinct(acc', ms[1..]);
    }
  }

  /** Index of the first occurrence of `t` in `ms`. */
  function First(ms: seq<string>, t: string): (k: nat)
    requires t in ms
    ensures k < |ms| && ms[k] == t && t !in ms[..k]
  {
    if ms[0] == t then 0
    else
      assert t in ms[1..];
      var k := 1 + First(ms[1..], t);
      assert ms[..k] == [ms[0]] + ms[1..][..k - 1];
      k
  }

  /** From index `from` on, the elements of `r` occur in `ms` and come in the order of their first occurrence there. */
  predicate FirstOccurrenceOrder(r: seq<string>, from: nat, ms: seq<string>) {
    forall a, b :: from <= a < b < |r| ==> r[a] in ms && r[b] in ms && First(ms, r[a]) < First(ms, r[b])
  }

  /**
   * What `Collect` adds after the first step comes from the rest of `ms`,
   * differs from `ms[0]` and so has its first occurrence shifted by one.
   */
  lemma CollectTail(acc: seq<string>, ms: seq<string>)
    requires Distinct(acc) && |ms| > 0
    ensures var acc' := if Keep(ms[0]) && ms[0] !in acc then acc + [ms[0]] else acc;
      var r := Collect(acc', ms[1..]);
      forall a :: |acc'| <= a < |r| ==> r[a] in ms[1..] && r[a] != ms[0] && First(ms, r[a]) == 1 + First(ms[1..], r[a])
  {
    var m, rest := ms[0], ms[1..];
    var acc' := if Keep(m) && m !in acc then acc + [m] else acc;
    assert Distinct(acc');
    CollectMembers(acc', rest);
    CollectDistinct(acc', rest);
    var r := Collect(acc', rest);
    assert r[..|acc'|] == acc';
    forall a | |acc'| <= a < |r| ensures r[a] in rest && r[a] != m && First(ms, r[a]) == 1 + First(rest, r[a]) {
      assert r[a] !in acc' by {
        forall k | 0 <= k < |acc'| ensures acc'[k] != r[a] {
          assert acc'[k] == r[k];
        }
      }
    }
  }

  /** What `Collect` adds after `acc` comes in the order of first occurrence in `ms`. */
  lemma {:induction false} CollectOrder(acc: seq<string>, ms: seq<string>)
    requires Distinct(acc)
    ensures FirstOccurrenceOrder(Collect(acc, ms), |acc|, ms)
    decreases |ms|
  {
    var r := Collect(acc, ms);
    if |ms| > 0 {
      var m, rest := ms[0], ms[1..];
      var added := Keep(m) && m !in acc;
      var acc' := if added then acc + [m] else acc;
      assert Distinct(acc');
      CollectOrder(acc', rest);
      CollectTail(acc, ms);
      assert r == Collect(acc', rest);
      assert r[..|acc'|] == acc';
      forall a, b | |acc| <= a < b < |r| ensures r[a] in ms && r[b] in ms && First(ms, r[a]) < First(ms, r[b]) {
        if added && a == |acc| {
          assert r[a] == m;
        }
      }
    }
  }

  /** Every tag is the whole run of tag characters after some `#`, long enough and not all digits. */
  lemma ExtractSound(s: string)
    ensures forall t :: t in Extract(s) ==> Keep(t) && exists i: nat :: TagAt(s, i, t)
  {
    MatchesAreRuns(s, 0);
    CollectMembers([], Matches(s, 0));
  }

  /** No tag appears twice. */
  lemma ExtractDistinct(s: string)
    ensures Distinct(Extract(s))
  {
    CollectDistinct([], Matches(s, 0));
  }

  /** Every run after a `#` that passes the filter is a tag. */
  lemma ExtractComplete(s: string)
    ensures forall i: nat :: MatchStart(s, i) && Keep(RunAt(s, i)) ==> RunAt(s, i) in Extract(s)
  {
    RunsAreMatched(s, 0);
    CollectMembers([], Matches(s, 0));
  }

  /** Tags come in the order in which they first appear in the text. */
  lemma ExtractOrder(s: string)
    ensures FirstOccurrenceOrder(Extract(s), 0, Matches(s, 0))
  {
    CollectOrder([], Matches(s, 0));
  }
}
