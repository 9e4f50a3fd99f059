/**
 * UTF-8, as fixed by section 3 of RFC 3629: the byte string that
 * `String.getBytes()` produces when the platform charset is UTF-8.
 *
 * A Dafny `char` is a Unicode scalar value (0 .. 0x10FFFF without the
 * surrogate range), so every character has exactly one encoding of one to
 * four bytes, and a string encodes character by character.
 */
module Utf8 {

  newtype byte = x: int | 0 <= x < 0x100

  /** A continuation byte: 10xxxxxx. */
  predicate IsContinuation(b: byte) {
    0x80 <= b < 0xC0
  }

  /** The encoding of one scalar value (the table in section 3 of RFC 3629). */
  function EncodeChar(c: char): (r: seq<byte>)
    ensures 1 <= |r| <= 4
    ensures |r| == 1 <==> c as int < 0x80
    ensures |r| == 2 <==> 0x80 <= c as int < 0x800
    ensures |r| == 3 <==> 0x800 <= c as int < 0x1_0000
    ensures |r| == 4 <==> 0x1_0000 <= c as int
    ensures |r| == 1 ==> r[0] as int == c as int
    ensures forall k :: 1 <= k < |r| ==> IsContinuation(r[k])
  {
    var n := c as int;
    if n < 0x80 then
      [n as byte]
    else if n < 0x800 then
      [(0xC0 + n / 0x40) as byte, (0x80 + n % 0x40) as byte]
    else if n < 0x1_0000 then
      [(0xE0 + n / 0x1000) as byte, (0x80 + n / 0x40 % 0x40) as byte, (0x80 + n % 0x40) as byte]
    else
      [(0xF0 + n / 0x4_0000) as byte, (0x80 + n / 0x1000 % 0x40) as byte,
       (0x80 + n / 0x40 % 0x40) as byte, (0x80 + n % 0x40) as byte]
  }

  /**
   * The scalar value carried by one well-formed encoded character: the
   * payload bits of the lead byte followed by six bits per continuation byte.
   */
  function DecodeChar(bs: seq<byte>): (n: int)
    requires 1 <= |bs| <= 4
  {
    if |bs| == 1 then bs[0] as int
    else if |bs| == 2 then (bs[0] as int - 0xC0) * 0x40 + (bs[1] as int - 0x80)
    else if |bs| == 3 then
      (bs[0] as int - 0xE0) * 0x1000 + (bs[1] as int - 0x80) * 0x40 + (bs[2] as int - 0x80)
    else
      (bs[0] as int - 0xF0) * 0x4_0000 + (bs[1] as int - 0x80) * 0x1000
        + (bs[2] as int - 0x80) * 0x40 + (bs[3] as int - 0x80)
  }

  /** Decoding the bytes of a character gives back that character. */
  lemma DecodeEncodeChar(c: char)
    ensures DecodeChar(EncodeChar(c)) == c as int
  {
    var n := c as int;
    if n < 0x80 {
    } else if n < 0x800 {
      assert n == n / 0x40 * 0x40 + n % 0x40;
    } else if n < 0x1_0000 {
      assert n / 0x40 == n / 0x1000 * 0x40 + n / 0x40 % 0x40;
      assert n == n / 0x40 * 0x40 + n % 0x40;
    } else {
      assert n / 0x1000 == n / 0x4_0000 * 0x40 + n / 0x1000 % 0x40;
      assert n / 0x40 == n / 0x1000 * 0x40 + n / 0x40 % 0x40;
      assert n == n / 0x40 * 0x40 + n % 0x40;
    }
  }

  /** The encoding of a string: its characters' encodings, in order. */
  function Encode(s: string): seq<byte>
  {
    if s == [] then [] else Encode(s[..|s| - 1]) + EncodeChar(s[|s| - 1])
  }

  /** Encoding distributes over concatenation: no bytes appear at the seam. */
  lemma {:induction false} EncodeAppend(a: string, b: string)
    ensures Encode(a + b) == Encode(a) + Encode(b)
  {
    if b == [] {
      assert a + b == a;
    } else {
      var b' := b[..|b| - 1];
      assert (a + b)[..|a + b| - 1] == a + b';
      assert (a + b)[|a + b| - 1] == b[|b| - 1];
      EncodeAppend(a, b');
    }
  }

  /** A string takes at least one and at most four bytes per character. */
  lemma {:induction false} EncodeLengthBounds(s: string)
    ensures |s| <= |Encode(s)| <= 4 * |s|
  {
    if s != [] {
      EncodeLengthBounds(s[..|s| - 1]);
    }
  }

  /** Every character below 0x80 takes exactly one byte, so byte length equals character count. */
  lemma {:induction false} EncodeAsciiLength(s: string)
    requires forall c | c in s :: c as int < 0x80
    ensures |Encode(s)| == |s|
  {
    if s != [] {
      var s' := s[..|s| - 1];
      assert forall c | c in s' :: c in s;
      assert s[|s| - 1] in s;
      EncodeAsciiLength(s');
    }
  }
}
