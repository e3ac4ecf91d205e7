/** Bytes and the UTF-8 encoding that Rust's `str::as_bytes` exposes
    (RFC 3629, section 3). Every Rust `String` is UTF-8, so the bytes a
    formatted response puts on the wire are the UTF-8 encoding of its text. */
module Utf8 {

  newtype byte = x: int | 0 <= x < 256

  const CR: byte := 13
  const LF: byte := 10

  predicate IsAscii(s: string) {
    forall i :: 0 <= i < |s| ==> s[i] as int < 0x80
  }

  /** The one to four bytes that encode a single Unicode scalar value. */
  function EncodeChar(c: char): (r: seq<byte>)
    ensures 1 <= |r| <= 4
    ensures c as int < 0x80 <==> |r| == 1
    ensures c as int < 0x80 ==> r[0] as int == c as int
    // the bytes of a multi-byte sequence all have the high bit set, so a
    // non-ASCII character never produces an ASCII byte such as CR or LF
    ensures c as int >= 0x80 ==> forall k :: 0 <= k < |r| ==> r[k] >= 0x80
  {
    var n := c as int;
    if n < 0x80 then [n as byte]
    else if n < 0x800 then [(0xC0 + n / 0x40) as byte, (0x80 + n % 0x40) as byte]
    else if n < 0x1_0000 then
      [(0xE0 + n / 0x1000) as byte, (0x80 + n / 0x40 % 0x40) as byte, (0x80 + n % 0x40) as byte]
    else
      [(0xF0 + n / 0x4_0000) as byte, (0x80 + n / 0x1000 % 0x40) as byte,
       (0x80 + n / 0x40 % 0x40) as byte, (0x80 + n % 0x40) as byte]
  }

  /** The UTF-8 bytes of a string: the encodings of its characters, in order. */
  function Encode(s: string): (r: seq<byte>)
    ensures |r| >= |s|
    ensures IsAscii(s) ==> |r| == |s| && forall i :: 0 <= i < |s| ==> r[i] as int == s[i] as int
  {
    if s == [] then [] else EncodeChar(s[0]) + Encode(s[1..])
  }

  /** Encoding distributes over concatenation. */
  lemma {:induction false} EncodeAppend(a: string, b: string)
    ensures Encode(a + b) == Encode(a) + Encode(b)
  {
    if a == [] {
      assert a + b == b;
    } else {
      assert (a + b)[1..] == a[1..] + b;
      EncodeAppend(a[1..], b);
    }
  }

  /** Only a carriage-return character encodes to a CR byte, and only a
      line-feed character to an LF byte. */
  lemma {:induction false} EncodeLineBreaks(s: string)
    ensures CR in Encode(s) <==> '\r' in s
    ensures LF in Encode(s) <==> '\n' in s
  {
    if s != [] {
      EncodeLineBreaks(s[1..]);
      assert s == [s[0]] + s[1..];
    }
  }

  /** The text of a byte string whose bytes are all ASCII. */
  function AsciiText(bs: seq<byte>): (s: string)
    requires forall i :: 0 <= i < |bs| ==> bs[i] < 0x80
    ensures IsAscii(s) && Encode(s) == bs
  {
    var s := seq(|bs|, i requires 0 <= i < |bs| => bs[i] as char);
    assert forall i :: 0 <= i < |s| ==> Encode(s)[i] == bs[i];
    s
  }

  /** Decoding the encoding of ASCII text gives the text back. */
  lemma AsciiTextEncode(s: string)
    requires IsAscii(s)
    ensures AsciiText(Encode(s)) == s
  {
  }
}
