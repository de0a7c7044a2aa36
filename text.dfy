/**
 * The JavaScript string operations the core relies on: `startsWith`,
 * `replace` with a string pattern, decimal rendering of integers in template
 * literals, and `parseInt` with no radix.
 */
module Text {
  import opened Wrappers

  /** `s.startsWith(p)`. */
  predicate StartsWith(s: string, p: string) {
    |p| <= |s| && s[..|p|] == p
  }

  /** `p` occurs in `s` at index `k`. */
  predicate OccursAt(s: string, p: string, k: int) {
    0 <= k && k + |p| <= |s| && s[k..k + |p|] == p
  }

  /** `s.indexOf(p, from)`, with None for -1. */
  function IndexOfFrom(s: string, p: string, from: nat): (r: Option<nat>)
    requires from <= |s|
    ensures r.Some? ==> from <= r.value && OccursAt(s, p, r.value)
    ensures forall k :: from <= k && (r.None? || k < r.value) ==> !OccursAt(s, p, k)
    decreases |s| - from
  {
    if OccursAt(s, p, from) then Some(from)
    else if from == |s| then None
    else IndexOfFrom(s, p, from + 1)
  }

  /**
   * `s.replace(p, rep)` with a string pattern: only the first occurrence is
   * replaced, and `s` is returned as it is when `p` does not occur.
   */
  function ReplaceFirst(s: string, p: string, rep: string): (r: string)
    ensures (forall k :: !OccursAt(s, p, k)) ==> r == s
    ensures forall i :: OccursAt(s, p, i) && (forall k :: 0 <= k < i ==> !OccursAt(s, p, k)) ==>
      r == s[..i] + rep + s[i + |p|..]
  {
    match IndexOfFrom(s, p, 0)
    case None => s
    case Some(i) => s[..i] + rep + s[i + |p|..]
  }

  /** Removing a prefix that the name starts with gives back what followed it. */
  lemma ReplaceFirstOfPrefix(p: string, rest: string)
    ensures ReplaceFirst(p + rest, p, "") == rest
  {
    assert OccursAt(p + rest, p, 0) by { assert (p + rest)[..|p|] == p; }
    assert IndexOfFrom(p + rest, p, 0) == Some(0);
    assert (p + rest)[|p|..] == rest;
  }

  /**
   * ECMAScript WhiteSpace and LineTerminator code points: what `\s` matches in
   * a regular expression and what `parseInt` skips at the start.
   */
  predicate IsJsSpace(c: char) {
    c == '\t' || c == '\n' || c == '\U{B}' || c == '\U{C}' || c == '\r' || c == ' '
    || c == '\U{A0}' || c == '\U{1680}' || ('\U{2000}' <= c <= '\U{200A}')
    || c == '\U{2028}' || c == '\U{2029}' || c == '\U{202F}' || c == '\U{205F}'
    || c == '\U{3000}' || c == '\U{FEFF}'
  }

  predicate IsDecimalDigit(c: char) {
    '0' <= c <= '9'
  }

  function DecimalDigit(d: int): (c: char)
    requires 0 <= d < 10
    ensures IsDecimalDigit(c)
  {
    ('0' as int + d) as char
  }

  /** Decimal text of a natural number, as a template literal renders it. */
  function NatToDecimal(n: nat): (s: string)
    ensures |s| >= 1
    ensures forall i :: 0 <= i < |s| ==> IsDecimalDigit(s[i])
    ensures |s| >= 2 ==> s[0] != '0'
    decreases n
  {
    if n < 10 then [DecimalDigit(n)]
    else NatToDecimal(n / 10) + [DecimalDigit(n % 10)]
  }

  /** `${n}` for an integer. */
  function IntToDecimal(n: int): (s: string)
    ensures |s| >= 1
  {
    if n < 0 then "-" + NatToDecimal(-n) else NatToDecimal(n)
  }

  /** Value of `c` as a digit in base `radix` (10 or 16), or -1 when it is none. */
  function DigitValue(c: char, radix: int): (v: int)
    ensures -1 <= v < radix || (v == -1)
    ensures v >= 0 ==> v < 16
  {
    var d :=
      if '0' <= c <= '9' then c as int - '0' as int
      else if 'a' <= c <= 'f' then c as int - 'a' as int + 10
      else if 'A' <= c <= 'F' then c as int - 'A' as int + 10
      else -1;
    if 0 <= d < radix then d else -1
  }

  /** Length of the longest prefix of `s` made of base-`radix` digits. */
  function DigitRun(s: string, radix: int): (n: nat)
    ensures n <= |s|
    ensures forall i :: 0 <= i < n ==> DigitValue(s[i], radix) >= 0
    ensures n < |s| ==> DigitValue(s[n], radix) < 0
  {
    if |s| == 0 || DigitValue(s[0], radix) < 0 then 0 else 1 + DigitRun(s[1..], radix)
  }

  /** Value of a run of digits, most significant first. */
  function DigitsValue(s: string, radix: int): (v: nat)
    requires forall i :: 0 <= i < |s| ==> DigitValue(s[i], radix) >= 0
    decreases |s|
  {
    if |s| == 0 then 0
    else DigitsValue(s[..|s| - 1], radix) * radix + DigitValue(s[|s| - 1], radix)
  }

  /** Number of leading WhiteSpace / LineTerminator code points. */
  function LeadingSpace(s: string): (n: nat)
    ensures n <= |s|
    ensures n < |s| ==> !IsJsSpace(s[n])
  {
    if |s| == 0 || !IsJsSpace(s[0]) then 0 else 1 + LeadingSpace(s[1..])
  }

  /**
   * `parseInt(s)` with no radix (ECMAScript section 19.2.5): skip leading
   * white space, take an optional sign, then read an unsigned number. None
   * stands for NaN; `-0` is 0. Precision loss beyond 2^53 is not modelled.
   */
  function ParseInt(s: string): Option<int> {
    var t := s[LeadingSpace(s)..];
    var negative := |t| > 0 && t[0] == '-';
    var u := if |t| > 0 && (t[0] == '-' || t[0] == '+') then t[1..] else t;
    match ParseUnsigned(u)
    case None => None
    case Some(v) => var w: int := v; Some(if negative then -w else w)
  }

  /** Base 16 after a `0x`/`0X` prefix, else base 10; the longest run of digits, none being NaN. */
  function ParseUnsigned(u: string): Option<nat> {
    var hex := |u| >= 2 && u[0] == '0' && (u[1] == 'x' || u[1] == 'X');
    var radix := if hex then 16 else 10;
    var digits := if hex then u[2..] else u;
    var n := DigitRun(digits, radix);
    if n == 0 then None else Some(DigitsValue(digits[..n], radix))
  }

  lemma {:induction false} DigitsValueOfDecimal(n: nat)
    ensures forall i :: 0 <= i < |NatToDecimal(n)| ==> DigitValue(NatToDecimal(n)[i], 10) >= 0
    ensures DigitsValue(NatToDecimal(n), 10) == n
    decreases n
  {
    var s := NatToDecimal(n);
    forall i | 0 <= i < |s| ensures DigitValue(s[i], 10) >= 0 {
      assert IsDecimalDigit(s[i]);
    }
    if n >= 10 {
      DigitsValueOfDecimal(n / 10);
      assert s[..|s| - 1] == NatToDecimal(n / 10);
    }
  }

  lemma {:induction false} DigitRunOfDecimal(s: string, tail: string)
    requires forall i :: 0 <= i < |s| ==> IsDecimalDigit(s[i])
    requires tail == [] || DigitValue(tail[0], 10) < 0
    ensures DigitRun(s + tail, 10) == |s|
    decreases |s|
  {
    if |s| > 0 {
      assert DigitValue(s[0], 10) >= 0;
      assert (s + tail)[0] == s[0];
      assert (s + tail)[1..] == s[1..] + tail;
      DigitRunOfDecimal(s[1..], tail);
    } else {
      assert s + tail == tail;
    }
  }

  lemma ParseUnsignedOfDecimal(m: nat, tail: string)
    requires tail == [] || (DigitValue(tail[0], 10) < 0 && tail[0] != 'x' && tail[0] != 'X')
    ensures ParseUnsigned(NatToDecimal(m) + tail) == Some(m)
  {
    var d := NatToDecimal(m);
    var u := d + tail;
    DigitsValueOfDecimal(m);
    DigitRunOfDecimal(d, tail);
    assert !(|u| >= 2 && u[0] == '0' && (u[1] == 'x' || u[1] == 'X')) by {
      if |d| >= 2 { assert u[0] == d[0]; }
      else if |u| >= 2 { assert u[1] == tail[0]; }
    }
    assert u[..|d|] == d;
  }

  /** A leading minus sign negates the unsigned number that follows it. */
  lemma ParseIntNegative(s: string, m: nat)
    requires |s| > 0 && s[0] == '-'
    requires ParseUnsigned(s[1..]) == Some(m)
    ensures ParseInt(s) == Some(-(m as int))
  {
    assert LeadingSpace(s) == 0;
    assert s[0..] == s;
  }

  /** Without white space or a sign, `parseInt` reads the unsigned number. */
  lemma ParseIntUnsigned(s: string, m: nat)
    requires |s| > 0 && !IsJsSpace(s[0]) && s[0] != '-' && s[0] != '+'
    requires ParseUnsigned(s) == Some(m)
    ensures ParseInt(s) == Some(m as int)
  {
    assert LeadingSpace(s) == 0;
    assert s[0..] == s;
  }

  lemma ParseIntOfNegativeDecimal(m: nat, tail: string)
    requires tail == [] || (DigitValue(tail[0], 10) < 0 && tail[0] != 'x' && tail[0] != 'X')
    ensures ParseInt("-" + (NatToDecimal(m) + tail)) == Some(-(m as int))
  {
    var u := NatToDecimal(m) + tail;
    ParseUnsignedOfDecimal(m, tail);
    var s := "-" + u;
    assert s[1..] == u;
    ParseIntNegative(s, m);
  }

  lemma ParseIntOfNaturalDecimal(m: nat, tail: string)
    requires tail == [] || (DigitValue(tail[0], 10) < 0 && tail[0] != 'x' && tail[0] != 'X')
    ensures ParseInt(NatToDecimal(m) + tail) == Some(m as int)
  {
    var d := NatToDecimal(m);
    var u := d + tail;
    ParseUnsignedOfDecimal(m, tail);
    assert u[0] == d[0];
    assert IsDecimalDigit(d[0]);
    ParseIntUnsigned(u, m);
  }

  /**
   * `parseInt` inverts the decimal rendering of every integer, and reading
   * stops at the first character that is not a digit, so whatever follows the
   * number is ignored when it cannot continue it.
   */
  lemma {:induction false} ParseIntOfDecimal(n: int, tail: string)
    requires tail == [] || (DigitValue(tail[0], 10) < 0 && tail[0] != 'x' && tail[0] != 'X')
    ensures ParseInt(IntToDecimal(n) + tail) == Some(n)
  {
    if n < 0 {
      var m: nat := -n;
      assert IntToDecimal(n) + tail == "-" + (NatToDecimal(m) + tail);
      ParseIntOfNegativeDecimal(m, tail);
    } else {
      ParseIntOfNaturalDecimal(n, tail);
    }
  }

  /**
   * The names of `Object.prototype`'s properties, which a lookup on an
   * object literal finds when the literal has no own property of that name.
   */
  predicate IsPrototypeMember(key: string) {
    key in {"constructor", "__proto__", "hasOwnProperty", "isPrototypeOf", "propertyIsEnumerable",
            "toString", "toLocaleString", "valueOf",
            "__defineGetter__", "__defineSetter__", "__lookupGetter__", "__lookupSetter__"}
  }
}
