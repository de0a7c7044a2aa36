/**
 * `Password.hash` and `Password.verify` of backend/src/utils.ts: the SHA-256
 * digest of the password, written as lowercase hexadecimal with two
 * characters per byte, and plain string equality with the stored hash.
 * SHA-256 itself is a parameter.
 */
module Password {
  import opened Base64
  import opened Token

  /** SHA-256 over the UTF-8 bytes of a string. */
  type Sha256 = string -> Digest

  function HexDigit(d: int): (c: char)
    requires 0 <= d < 16
  {
    if d < 10 then ('0' as int + d) as char else ('a' as int + (d - 10)) as char
  }

  /** The value of a lowercase hexadecimal digit, or -1. */
  function HexValue(c: char): (v: int)
    ensures -1 <= v < 16
  {
    if '0' <= c <= '9' then c as int - '0' as int
    else if 'a' <= c <= 'f' then c as int - 'a' as int + 10
    else -1
  }

  predicate IsLowerHex(c: char) {
    HexValue(c) >= 0
  }

  /** `b.toString(16).padStart(2, '0')`. */
  function ByteHex(b: Byte): string {
    [HexDigit(b / 16), HexDigit(b % 16)]
  }

  /** The bytes in `map(...).join('')` order. */
  function Hex(bytes: seq<Byte>): string
    decreases |bytes|
  {
    if |bytes| == 0 then "" else ByteHex(bytes[0]) + Hex(bytes[1..])
  }

  /** Reads two hexadecimal digits per byte: the inverse of `Hex`. */
  function Unhex(s: string): (r: seq<Byte>)
    requires |s| % 2 == 0 && forall i :: 0 <= i < |s| ==> IsLowerHex(s[i])
    decreases |s|
  {
    if |s| == 0 then []
    else
      assert IsLowerHex(s[0]) && IsLowerHex(s[1]);
      assert forall i :: 0 <= i < |s| - 2 ==> IsLowerHex(s[2..][i]) by {
        forall i | 0 <= i < |s| - 2 ensures IsLowerHex(s[2..][i]) { assert s[2..][i] == s[i + 2]; }
      }
      [HexValue(s[0]) * 16 + HexValue(s[1])] + Unhex(s[2..])
  }

  /** Hex text is twice as long as the bytes, lowercase, and reads back to the bytes. */
  lemma {:induction false} HexRoundTrip(bytes: seq<Byte>)
    ensures |Hex(bytes)| == 2 * |bytes|
    ensures forall i :: 0 <= i < |Hex(bytes)| ==> IsLowerHex(Hex(bytes)[i])
    ensures Unhex(Hex(bytes)) == bytes
    decreases |bytes|
  {
    if |bytes| > 0 {
      var h := Hex(bytes);
      HexRoundTrip(bytes[1..]);
      var rest := Hex(bytes[1..]);
      assert h == ByteHex(bytes[0]) + rest;
      forall i | 0 <= i < |h| ensures IsLowerHex(h[i]) {
        if i >= 2 { assert h[i] == rest[i - 2]; }
      }
      assert h[2..] == rest;
      assert bytes == [bytes[0]] + bytes[1..];
    }
  }

  lemma HexInjective(a: seq<Byte>, b: seq<Byte>)
    ensures Hex(a) == Hex(b) <==> a == b
  {
    HexRoundTrip(a);
    HexRoundTrip(b);
  }

  /** `Password.hash(password)`: 64 lowercase hexadecimal characters. */
  function Hash(password: string, sha256: Sha256): (r: string)
    ensures |r| == 64 && forall i :: 0 <= i < |r| ==> IsLowerHex(r[i])
  {
    HexRoundTrip(sha256(password));
    Hex(sha256(password))
  }

  /** `Password.verify(password, hash)`. */
  function Verify(password: string, hash: string, sha256: Sha256): (ok: bool)
    ensures ok ==> |hash| == 64
  {
    Hash(password, sha256) == hash
  }

  /**
   * A password matches the stored hash of another password exactly when the
   * two have the same SHA-256 digest; in particular every password matches
   * its own hash.
   */
  lemma VerifyAgainstHash(password: string, stored: string, sha256: Sha256)
    ensures Verify(password, Hash(stored, sha256), sha256) <==> sha256(password) == sha256(stored)
    ensures Verify(password, Hash(password, sha256), sha256)
  {
    HexInjective(sha256(password), sha256(stored));
  }
}
