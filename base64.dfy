/**
 * The browser's `btoa` and `atob` over the standard base64 alphabet of
 * section 4 of RFC 4648, and the `.replace(/[=]/g, '')` that the token code
 * applies to every encoded segment.
 *
 * JavaScript strings handed to `btoa` are "binary strings": every code unit
 * must be at most U+00FF, and it throws otherwise. `atob` is the
 * forgiving-base64 decode of the WHATWG Infra standard: ASCII white space is
 * ignored, one or two trailing `=` are dropped when the length is a multiple
 * of four, and missing padding is accepted.
 */
module Base64 {
  import opened Wrappers

  type Byte = x: int | 0 <= x < 256

  /** The character that encodes six bits `v`. */
  function Sextet(v: int): (c: char)
    requires 0 <= v < 64
  {
    if v < 26 then ('A' as int + v) as char
    else if v < 52 then ('a' as int + (v - 26)) as char
    else if v < 62 then ('0' as int + (v - 52)) as char
    else if v == 62 then '+'
    else '/'
  }

  /** The six bits a base64 character stands for, or -1 for any other character. */
  function SextetValue(c: char): (v: int)
    ensures -1 <= v < 64
  {
    if 'A' <= c <= 'Z' then c as int - 'A' as int
    else if 'a' <= c <= 'z' then c as int - 'a' as int + 26
    else if '0' <= c <= '9' then c as int - '0' as int + 52
    else if c == '+' then 62
    else if c == '/' then 63
    else -1
  }

  predicate IsBase64Char(c: char) {
    SextetValue(c) >= 0
  }

  /** Every encoded character decodes to the bits it encodes, and is neither `=` nor `.`. */
  lemma SextetRoundTrip(v: int)
    requires 0 <= v < 64
    ensures SextetValue(Sextet(v)) == v
    ensures IsBase64Char(Sextet(v)) && Sextet(v) != '=' && Sextet(v) != '.'
  {
  }

  predicate AllBase64(s: string) {
    forall i :: 0 <= i < |s| ==> IsBase64Char(s[i])
  }

  /** Every code unit fits in a byte, so `btoa` accepts the string. */
  predicate IsBinaryString(s: string) {
    forall i :: 0 <= i < |s| ==> s[i] as int < 256
  }

  function ToBytes(s: string): (b: seq<Byte>)
    requires IsBinaryString(s)
    ensures |b| == |s|
  {
    if |s| == 0 then [] else [s[0] as int] + ToBytes(s[1..])
  }

  /** `String.fromCharCode(...bytes)`. */
  function FromBytes(b: seq<Byte>): (s: string)
    ensures |s| == |b|
  {
    if |b| == 0 then [] else [b[0] as char] + FromBytes(b[1..])
  }

  lemma {:induction false} FromBytesIsBinary(b: seq<Byte>)
    ensures IsBinaryString(FromBytes(b))
  {
    if |b| > 0 {
      FromBytesIsBinary(b[1..]);
      var s := FromBytes(b);
      assert s[1..] == FromBytes(b[1..]);
      forall i | 0 <= i < |s| ensures s[i] as int < 256 {
        if i > 0 { assert s[i] == FromBytes(b[1..])[i - 1]; }
      }
    }
  }

  lemma {:induction false} BytesRoundTrip(s: string)
    requires IsBinaryString(s)
    ensures FromBytes(ToBytes(s)) == s
  {
    if |s| > 0 {
      assert IsBinaryString(s[1..]) by {
        forall i | 0 <= i < |s| - 1 ensures s[1..][i] as int < 256 { assert s[1..][i] == s[i + 1]; }
      }
      BytesRoundTrip(s[1..]);
    }
  }

  lemma {:induction false} ToBytesOfFromBytes(b: seq<Byte>)
    ensures IsBinaryString(FromBytes(b)) && ToBytes(FromBytes(b)) == b
  {
    FromBytesIsBinary(b);
    if |b| > 0 {
      var s := FromBytes(b);
      assert s[1..] == FromBytes(b[1..]);
      ToBytesOfFromBytes(b[1..]);
    }
  }

  /** Three bytes as four characters. */
  function EncodeGroup(b0: Byte, b1: Byte, b2: Byte): string {
    [Sextet(b0 / 4), Sextet((b0 % 4) * 16 + b1 / 16), Sextet((b1 % 16) * 4 + b2 / 64), Sextet(b2 % 64)]
  }

  /** What `btoa` produces from the bytes: full groups, then a padded tail. */
  function EncodePadded(b: seq<Byte>): string
    decreases |b|
  {
    if |b| == 0 then ""
    else if |b| == 1 then [Sextet(b[0] / 4), Sextet((b[0] % 4) * 16), '=', '=']
    else if |b| == 2 then [Sextet(b[0] / 4), Sextet((b[0] % 4) * 16 + b[1] / 16), Sextet((b[1] % 16) * 4), '=']
    else EncodeGroup(b[0], b[1], b[2]) + EncodePadded(b[3..])
  }

  /** The same encoding with its padding left off. */
  function Encode(b: seq<Byte>): string
    decreases |b|
  {
    if |b| == 0 then ""
    else if |b| == 1 then [Sextet(b[0] / 4), Sextet((b[0] % 4) * 16)]
    else if |b| == 2 then [Sextet(b[0] / 4), Sextet((b[0] % 4) * 16 + b[1] / 16), Sextet((b[1] % 16) * 4)]
    else EncodeGroup(b[0], b[1], b[2]) + Encode(b[3..])
  }

  /** `btoa(s)`, None where it throws. */
  function Btoa(s: string): (r: Option<string>)
    ensures r.Some? <==> IsBinaryString(s)
  {
    if IsBinaryString(s) then Some(EncodePadded(ToBytes(s))) else None
  }

  /** `s.replace(/[=]/g, '')`. */
  function RemoveEquals(s: string): (r: string)
    ensures |r| <= |s|
    ensures forall i :: 0 <= i < |r| ==> r[i] != '='
  {
    if |s| == 0 then ""
    else if s[0] == '=' then RemoveEquals(s[1..])
    else [s[0]] + RemoveEquals(s[1..])
  }

  lemma {:induction false} RemoveEqualsAppend(a: string, b: string)
    ensures RemoveEquals(a + b) == RemoveEquals(a) + RemoveEquals(b)
    decreases |a|
  {
    if |a| == 0 {
      assert a + b == b;
    } else {
      assert (a + b)[1..] == a[1..] + b;
      RemoveEqualsAppend(a[1..], b);
    }
  }

  lemma {:induction false} RemoveEqualsOfBase64(s: string)
    requires AllBase64(s)
    ensures RemoveEquals(s) == s
  {
    if |s| > 0 {
      assert s[0] != '=' by { assert IsBase64Char(s[0]); }
      assert AllBase64(s[1..]) by {
        forall i | 0 <= i < |s| - 1 ensures IsBase64Char(s[1..][i]) { assert s[1..][i] == s[i + 1]; }
      }
      RemoveEqualsOfBase64(s[1..]);
    }
  }

  lemma EncodeGroupIsBase64(b0: Byte, b1: Byte, b2: Byte)
    ensures AllBase64(EncodeGroup(b0, b1, b2))
  {
    SextetRoundTrip(b0 / 4);
    SextetRoundTrip((b0 % 4) * 16 + b1 / 16);
    SextetRoundTrip((b1 % 16) * 4 + b2 / 64);
    SextetRoundTrip(b2 % 64);
  }

  /** Four characters per group of three bytes, and one more character than bytes in a short tail. */
  lemma {:induction false} EncodeLength(b: seq<Byte>)
    ensures |Encode(b)| == 4 * (|b| / 3) + (if |b| % 3 == 0 then 0 else |b| % 3 + 1)
    decreases |b|
  {
    if |b| >= 3 {
      EncodeLength(b[3..]);
    }
  }

  /** Only alphabet characters are produced. */
  lemma {:induction false} EncodeIsBase64(b: seq<Byte>)
    ensures AllBase64(Encode(b))
    decreases |b|
  {
    var e := Encode(b);
    if |b| == 1 {
      SextetRoundTrip(b[0] / 4);
      SextetRoundTrip((b[0] % 4) * 16);
    } else if |b| == 2 {
      SextetRoundTrip(b[0] / 4);
      SextetRoundTrip((b[0] % 4) * 16 + b[1] / 16);
      SextetRoundTrip((b[1] % 16) * 4);
    } else if |b| >= 3 {
      var g := EncodeGroup(b[0], b[1], b[2]);
      var rest := Encode(b[3..]);
      EncodeGroupIsBase64(b[0], b[1], b[2]);
      EncodeIsBase64(b[3..]);
      assert e == g + rest;
      forall i | 0 <= i < |e| ensures IsBase64Char(e[i]) {
        if i < 4 { assert e[i] == g[i]; } else { assert e[i] == rest[i - 4]; }
      }
    }
  }

  /**
   * The unpadded encoding is made of alphabet characters only, so it never
   * holds `=` or `.`, and its length is never one more than a multiple of four.
   */
  lemma EncodeShape(b: seq<Byte>)
    ensures AllBase64(Encode(b))
    ensures |Encode(b)| % 4 != 1
    ensures forall i :: 0 <= i < |Encode(b)| ==> Encode(b)[i] != '=' && Encode(b)[i] != '.'
    ensures |Encode(b)| == 4 * (|b| / 3) + (if |b| % 3 == 0 then 0 else |b| % 3 + 1)
  {
    var e := Encode(b);
    EncodeLength(b);
    EncodeIsBase64(b);
    forall i | 0 <= i < |e| ensures e[i] != '=' && e[i] != '.' {
      assert IsBase64Char(e[i]);
    }
  }

  /** Dropping the padding of `btoa`'s output gives the unpadded encoding. */
  lemma {:induction false} RemoveEqualsOfPadded(b: seq<Byte>)
    ensures RemoveEquals(EncodePadded(b)) == Encode(b)
    decreases |b|
  {
    if |b| == 1 {
      var c0, c1 := Sextet(b[0] / 4), Sextet((b[0] % 4) * 16);
      SextetRoundTrip(b[0] / 4);
      SextetRoundTrip((b[0] % 4) * 16);
      RemoveEqualsAppend([c0, c1], "==");
      assert EncodePadded(b) == [c0, c1] + "==";
      RemoveEqualsOfBase64([c0, c1]);
    } else if |b| == 2 {
      var c0, c1, c2 := Sextet(b[0] / 4), Sextet((b[0] % 4) * 16 + b[1] / 16), Sextet((b[1] % 16) * 4);
      SextetRoundTrip(b[0] / 4);
      SextetRoundTrip((b[0] % 4) * 16 + b[1] / 16);
      SextetRoundTrip((b[1] % 16) * 4);
      RemoveEqualsAppend([c0, c1, c2], "=");
      assert EncodePadded(b) == [c0, c1, c2] + "=";
      RemoveEqualsOfBase64([c0, c1, c2]);
    } else if |b| >= 3 {
      var g := EncodeGroup(b[0], b[1], b[2]);
      EncodeGroupIsBase64(b[0], b[1], b[2]);
      RemoveEqualsAppend(g, EncodePadded(b[3..]));
      RemoveEqualsOfBase64(g);
      RemoveEqualsOfPadded(b[3..]);
    }
  }

  predicate IsAsciiWhitespace(c: char) {
    c == '\t' || c == '\n' || c == '\U{C}' || c == '\r' || c == ' '
  }

  function RemoveAsciiWhitespace(s: string): (r: string)
    ensures |r| <= |s|
  {
    if |s| == 0 then ""
    else if IsAsciiWhitespace(s[0]) then RemoveAsciiWhitespace(s[1..])
    else [s[0]] + RemoveAsciiWhitespace(s[1..])
  }

  lemma {:induction false} RemoveAsciiWhitespaceOfBase64(s: string)
    requires AllBase64(s)
    ensures RemoveAsciiWhitespace(s) == s
  {
    if |s| > 0 {
      assert IsBase64Char(s[0]);
      assert AllBase64(s[1..]) by {
        forall i | 0 <= i < |s| - 1 ensures IsBase64Char(s[1..][i]) { assert s[1..][i] == s[i + 1]; }
      }
      RemoveAsciiWhitespaceOfBase64(s[1..]);
    }
  }

  /** When the length is a multiple of four, one or two trailing `=` are dropped. */
  function StripPadding(t: string): (r: string)
    ensures |r| <= |t|
  {
    if |t| % 4 == 0 && |t| >= 2 && t[|t| - 2] == '=' && t[|t| - 1] == '=' then t[..|t| - 2]
    else if |t| % 4 == 0 && |t| >= 1 && t[|t| - 1] == '=' then t[..|t| - 1]
    else t
  }

  /** Four characters as three bytes. */
  function DecodeGroup(c0: char, c1: char, c2: char, c3: char): seq<Byte>
    requires IsBase64Char(c0) && IsBase64Char(c1) && IsBase64Char(c2) && IsBase64Char(c3)
  {
    var v0, v1, v2, v3 := SextetValue(c0), SextetValue(c1), SextetValue(c2), SextetValue(c3);
    [v0 * 4 + v1 / 16, (v1 % 16) * 16 + v2 / 4, (v2 % 4) * 64 + v3]
  }

  /**
   * The bytes of a run of alphabet characters: a tail of two characters gives
   * one byte and a tail of three gives two; the bits left over are dropped.
   */
  function DecodeChars(t: string): seq<Byte>
    requires AllBase64(t) && |t| % 4 != 1
    decreases |t|
  {
    if |t| == 0 then []
    else if |t| == 2 then
      var v0, v1 := SextetValue(t[0]), SextetValue(t[1]);
      [v0 * 4 + v1 / 16]
    else if |t| == 3 then
      var v0, v1, v2 := SextetValue(t[0]), SextetValue(t[1]), SextetValue(t[2]);
      [v0 * 4 + v1 / 16, (v1 % 16) * 16 + v2 / 4]
    else
      assert IsBase64Char(t[0]) && IsBase64Char(t[1]) && IsBase64Char(t[2]) && IsBase64Char(t[3]);
      assert AllBase64(t[4..]) by {
        forall i | 0 <= i < |t| - 4 ensures IsBase64Char(t[4..][i]) { assert t[4..][i] == t[i + 4]; }
      }
      DecodeGroup(t[0], t[1], t[2], t[3]) + DecodeChars(t[4..])
  }

  /** `atob(s)`, None where it throws. */
  function Atob(s: string): (r: Option<string>)
    ensures r.Some? ==> IsBinaryString(r.value)
  {
    var t := StripPadding(RemoveAsciiWhitespace(s));
    if |t| % 4 == 1 || !AllBase64(t) then None
    else
      FromBytesIsBinary(DecodeChars(t));
      Some(FromBytes(DecodeChars(t)))
  }

  /** Decoding four encoded characters gives back the bits of their sextets. */
  lemma DecodeSextets(v0: int, v1: int, v2: int, v3: int)
    requires 0 <= v0 < 64 && 0 <= v1 < 64 && 0 <= v2 < 64 && 0 <= v3 < 64
    ensures IsBase64Char(Sextet(v0)) && IsBase64Char(Sextet(v1)) && IsBase64Char(Sextet(v2)) && IsBase64Char(Sextet(v3))
    ensures DecodeGroup(Sextet(v0), Sextet(v1), Sextet(v2), Sextet(v3)) == [v0 * 4 + v1 / 16, (v1 % 16) * 16 + v2 / 4, (v2 % 4) * 64 + v3]
  {
    SextetRoundTrip(v0);
    SextetRoundTrip(v1);
    SextetRoundTrip(v2);
    SextetRoundTrip(v3);
  }

  /** The four sextets of a group put back together are the three bytes. */
  lemma RegroupBits(b0: Byte, b1: Byte, b2: Byte)
    ensures var v0, v1, v2, v3 := b0 / 4, (b0 % 4) * 16 + b1 / 16, (b1 % 16) * 4 + b2 / 64, b2 % 64;
      v0 * 4 + v1 / 16 == b0 && (v1 % 16) * 16 + v2 / 4 == b1 && (v2 % 4) * 64 + v3 == b2
  {
    var v1, v2 := (b0 % 4) * 16 + b1 / 16, (b1 % 16) * 4 + b2 / 64;
    assert v1 / 16 == b0 % 4 && v1 % 16 == b1 / 16;
    assert v2 / 4 == b1 % 16 && v2 % 4 == b2 / 64;
  }

  lemma GroupRoundTrip(b0: Byte, b1: Byte, b2: Byte)
    ensures AllBase64(EncodeGroup(b0, b1, b2))
    ensures var g := EncodeGroup(b0, b1, b2); DecodeGroup(g[0], g[1], g[2], g[3]) == [b0, b1, b2]
  {
    EncodeGroupIsBase64(b0, b1, b2);
    DecodeSextets(b0 / 4, (b0 % 4) * 16 + b1 / 16, (b1 % 16) * 4 + b2 / 64, b2 % 64);
    RegroupBits(b0, b1, b2);
  }

  /** Four alphabet characters in front of a decodable run decode group first. */
  lemma DecodeAppendGroup(g: string, rest: string)
    requires |g| == 4 && AllBase64(g) && AllBase64(rest) && |rest| % 4 != 1
    ensures AllBase64(g + rest) && |g + rest| % 4 != 1
    ensures DecodeChars(g + rest) == DecodeGroup(g[0], g[1], g[2], g[3]) + DecodeChars(rest)
  {
    var t := g + rest;
    forall i | 0 <= i < |t| ensures IsBase64Char(t[i]) {
      if i < 4 { assert t[i] == g[i]; } else { assert t[i] == rest[i - 4]; }
    }
    assert t[4..] == rest;
  }

  /** With three bytes or more, the encoding starts with the group of the first three. */
  lemma EncodeCons(b: seq<Byte>)
    requires |b| >= 3
    ensures Encode(b) == EncodeGroup(b[0], b[1], b[2]) + Encode(b[3..])
  {
  }

  /** A full group at the front decodes to its three bytes, followed by what the rest decodes to. */
  lemma DecodeFirstGroup(b: seq<Byte>)
    requires |b| >= 3
    requires AllBase64(Encode(b[3..])) && |Encode(b[3..])| % 4 != 1
    requires DecodeChars(Encode(b[3..])) == b[3..]
    ensures AllBase64(Encode(b)) && |Encode(b)| % 4 != 1
    ensures DecodeChars(Encode(b)) == b
  {
    var g := EncodeGroup(b[0], b[1], b[2]);
    var rest := Encode(b[3..]);
    EncodeCons(b);
    GroupRoundTrip(b[0], b[1], b[2]);
    DecodeAppendGroup(g, rest);
    calc {
      DecodeChars(Encode(b));
      DecodeChars(g + rest);
      DecodeGroup(g[0], g[1], g[2], g[3]) + DecodeChars(rest);
      [b[0], b[1], b[2]] + b[3..];
      b;
    }
  }

  lemma {:induction false} DecodeEncode(b: seq<Byte>)
    ensures AllBase64(Encode(b)) && |Encode(b)| % 4 != 1
    ensures DecodeChars(Encode(b)) == b
    decreases |b|
  {
    if |b| >= 3 {
      DecodeEncode(b[3..]);
      DecodeFirstGroup(b);
    } else {
      EncodeShape(b);
      if |b| == 1 {
        SextetRoundTrip(b[0] / 4);
        SextetRoundTrip((b[0] % 4) * 16);
      } else if |b| == 2 {
        SextetRoundTrip(b[0] / 4);
        SextetRoundTrip((b[0] % 4) * 16 + b[1] / 16);
        SextetRoundTrip((b[1] % 16) * 4);
      }
    }
  }

  /** Whatever the bytes, `atob` gives them back from the unpadded encoding. */
  lemma AtobOfEncode(b: seq<Byte>)
    ensures Atob(Encode(b)) == Some(FromBytes(b))
  {
    var e := Encode(b);
    DecodeEncode(b);
    EncodeShape(b);
    RemoveAsciiWhitespaceOfBase64(e);
    if |e| >= 1 {
      assert IsBase64Char(e[|e| - 1]);
    }
    assert StripPadding(e) == e;
  }

  /** Distinct byte strings have distinct encodings. */
  lemma EncodeInjective(b1: seq<Byte>, b2: seq<Byte>)
    ensures Encode(b1) == Encode(b2) <==> b1 == b2
  {
    DecodeEncode(b1);
    DecodeEncode(b2);
  }

  /**
   * A binary string survives `btoa`, the removal of `=` and `atob`; a string
   * with a code unit above U+00FF makes `btoa` throw.
   */
  lemma {:induction false} BtoaAtobRoundTrip(s: string)
    ensures IsBinaryString(s) <==> Btoa(s).Some?
    ensures IsBinaryString(s) ==> Atob(RemoveEquals(Btoa(s).value)) == Some(s)
    ensures IsBinaryString(s) ==> RemoveEquals(Btoa(s).value) == Encode(ToBytes(s))
  {
    if IsBinaryString(s) {
      RemoveEqualsOfPadded(ToBytes(s));
      AtobOfEncode(ToBytes(s));
      BytesRoundTrip(s);
    }
  }
}
