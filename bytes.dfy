/**
 * Bytes, and the UTF-8 encoding that turns a Go string's code points into
 * the bytes the string actually holds. Only the properties the rest of the
 * model needs are proved: ASCII code points are one byte each and every
 * byte of a longer encoding is at least 0x80.
 */
module Bytes {

  newtype byte = x: int | 0 <= x < 256

  /** The UTF-8 encoding of one code point. */
  function EncodeRune(c: char): (r: seq<byte>)
    ensures 1 <= |r| <= 4
    ensures c as int < 0x80 ==> r == [c as int as byte]
    ensures c as int >= 0x80 ==> forall i | 0 <= i < |r| :: r[i] >= 0x80
  {
    var v := c as int;
    if v < 0x80 then [v as byte]
    else if v < 0x800 then [(0xC0 + v / 0x40) as byte, (0x80 + v % 0x40) as byte]
    else if v < 0x1_0000 then
      [(0xE0 + v / 0x1000) as byte, (0x80 + (v / 0x40) % 0x40) as byte, (0x80 + v % 0x40) as byte]
    else
      [(0xF0 + v / 0x4_0000) as byte, (0x80 + (v / 0x1000) % 0x40) as byte,
       (0x80 + (v / 0x40) % 0x40) as byte, (0x80 + v % 0x40) as byte]
  }

  /** The bytes of a string: the concatenated encodings of its code points. */
  function Encode(s: string): (r: seq<byte>)
    ensures |r| >= |s|
  {
    if s == [] then [] else EncodeRune(s[0]) + Encode(s[1..])
  }

  /** A byte sequence read back one byte per character, as Go's byte-wise string operations see it. */
  function ByteString(b: seq<byte>): (r: string)
    ensures |r| == |b|
    ensures forall i | 0 <= i < |b| :: r[i] as int == b[i] as int
  {
    seq(|b|, i requires 0 <= i < |b| => b[i] as int as char)
  }

  /** Index of the first code point not in ASCII, or |s| when there is none. */
  function FirstNonAscii(s: string): (k: nat)
    ensures k <= |s|
    ensures forall i | 0 <= i < k :: s[i] as int < 0x80
    ensures k < |s| ==> s[k] as int >= 0x80
  {
    if s == [] then 0
    else if s[0] as int >= 0x80 then 0
    else 1 + FirstNonAscii(s[1..])
  }

  /**
   * Up to the first non-ASCII code point the bytes of a string are its
   * characters; that code point itself starts with a byte of at least 0x80;
   * an all-ASCII string has exactly one byte per character.
   */
  lemma {:induction false} EncodeAsciiPrefix(s: string, k: nat)
    requires k <= |s|
    requires forall i | 0 <= i < k :: s[i] as int < 0x80
    ensures |Encode(s)| >= k
    ensures forall i | 0 <= i < k :: Encode(s)[i] as int == s[i] as int
    ensures k < |s| && s[k] as int >= 0x80 ==> |Encode(s)| > k && Encode(s)[k] >= 0x80
    ensures k == |s| ==> |Encode(s)| == |s|
  {
    if k > 0 {
      EncodeAsciiPrefix(s[1..], k - 1);
      assert Encode(s) == [s[0] as int as byte] + Encode(s[1..]);
    } else if |s| > 0 {
      assert Encode(s) == EncodeRune(s[0]) + Encode(s[1..]);
    }
  }
}
