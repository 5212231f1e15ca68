/**
 * Rust strings as the identifier code sees them: a `&str` is a sequence of
 * UTF-8 bytes, `len()` counts those bytes and `starts_with` compares them.
 * Every symbol an identifier generator emits is ASCII, and an ASCII
 * character is encoded as the single byte carrying its code point.
 */
module Utf8Text {

  /** One UTF-8 code unit. */
  newtype byte = b: int | 0 <= b < 0x100

  /** The UTF-8 encoding of a Rust string. */
  type Bytes = seq<byte>

  /** Every character of `s` lies in the 7-bit ASCII range. */
  predicate IsAscii(s: string) {
    forall i :: 0 <= i < |s| ==> s[i] as int < 0x80
  }

  /** Every byte of `b` is an ASCII code (no multi-byte sequence in it). */
  predicate IsAsciiBytes(b: Bytes) {
    forall i :: 0 <= i < |b| ==> b[i] < 0x80
  }

  /** UTF-8 encoding of an ASCII string: one byte per character. */
  function EncodeAscii(s: string): (b: Bytes)
    requires IsAscii(s)
    ensures |b| == |s|
    ensures IsAsciiBytes(b)
    ensures forall i :: 0 <= i < |s| ==> b[i] as int == s[i] as int
  {
    seq(|s|, i requires 0 <= i < |s| => s[i] as int as byte)
  }

  /** Reads ASCII bytes back as characters. */
  function DecodeAscii(b: Bytes): (s: string)
    requires IsAsciiBytes(b)
    ensures IsAscii(s)
    ensures EncodeAscii(s) == b
  {
    seq(|b|, i requires 0 <= i < |b| => b[i] as int as char)
  }

  /** `s.starts_with(p)` on the bytes of two Rust strings. */
  predicate StartsWith(s: Bytes, p: Bytes) {
    |p| <= |s| && s[..|p|] == p
  }
}
