/**
  The bytes of a Rust `&str`: `str::as_bytes` yields the UTF-8 encoding of the
  string. Dafny's `char` is a Unicode scalar value, like Rust's, so every
  string has exactly one encoding.
 */
module Utf8 {

  newtype byte = b: int | 0 <= b < 256

  predicate IsAscii(c: char) {
    c as int < 0x80
  }

  /** The UTF-8 encoding of one scalar value: one to four bytes. */
  function EncodeChar(c: char): (r: seq<byte>)
    ensures 1 <= |r| <= 4
    ensures |r| == 1 <==> IsAscii(c)
    ensures IsAscii(c) ==> r[0] as int == c as int
  {
    var n := c as int;
    if n < 0x80 then
      [n as byte]
    else if n < 0x800 then
      [(0xC0 + n / 0x40) as byte, (0x80 + n % 0x40) as byte]
    else if n < 0x1_0000 then
      [(0xE0 + n / 0x1000) as byte, (0x80 + (n / 0x40) % 0x40) as byte, (0x80 + n % 0x40) as byte]
    else
      [(0xF0 + n / 0x4_0000) as byte, (0x80 + (n / 0x1000) % 0x40) as byte,
       (0x80 + (n / 0x40) % 0x40) as byte, (0x80 + n % 0x40) as byte]
  }

  /** `s.as_bytes()`. */
  function Encode(s: string): (r: seq<byte>)
    ensures |r| >= |s|
  {
    if s == [] then [] else EncodeChar(s[0]) + Encode(s[1..])
  }

  /** Encoding is a homomorphism: the bytes of a concatenation are the concatenated bytes. */
  lemma {:induction false} EncodeAppend(a: string, b: string)
    ensures Encode(a + b) == Encode(a) + Encode(b)
  {
    if a == [] {
      assert a + b == b;
    } else {
      assert (a + b)[0] == a[0];
      assert (a + b)[1..] == a[1..] + b;
      EncodeAppend(a[1..], b);
    }
  }

  /** An all-ASCII string has one byte per character, equal to the character's code. */
  lemma {:induction false} AsciiEncoding(s: string)
    requires forall i :: 0 <= i < |s| ==> IsAscii(s[i])
    ensures |Encode(s)| == |s|
    ensures forall i :: 0 <= i < |s| ==> Encode(s)[i] as int == s[i] as int
  {
    if s != [] {
      AsciiEncoding(s[1..]);
    }
  }

  /** A string holding any non-ASCII character has more bytes than characters. */
  lemma {:induction false} NonAsciiIsLonger(s: string, k: nat)
    requires k < |s| && !IsAscii(s[k])
    ensures |Encode(s)| > |s|
  {
    if k > 0 {
      NonAsciiIsLonger(s[1..], k - 1);
    }
  }
}
