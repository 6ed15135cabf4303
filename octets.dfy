/** Octets on the wire and their relation to text: `str.encode()` (UTF-8) for
    everything the server sends, and the decoding of received bytes, which
    this model restricts to ASCII. */
module Octets {
  import opened Basics

  newtype byte = x: int | 0 <= x < 256

  const CR: byte := 13
  const LF: byte := 10
  const CRLF: seq<byte> := [CR, LF]

  predicate IsAsciiBytes(b: seq<byte>) {
    forall i :: 0 <= i < |b| ==> b[i] < 128
  }

  predicate IsAscii(s: string) {
    forall i :: 0 <= i < |s| ==> s[i] as int < 128
  }

  /** The UTF-8 encoding of one character. Every byte of a multi-byte
      encoding has its high bit set, so an encoded non-ASCII character never
      contains a CR or LF byte. */
  function EncodeChar(c: char): (r: seq<byte>)
    ensures 1 <= |r| <= 4
    ensures |r| == 1 <==> c as int < 128
    ensures |r| == 1 ==> r[0] as int == c as int
    ensures |r| > 1 ==> forall i :: 0 <= i < |r| ==> r[i] >= 128
  {
    var n := c as int;
    if n < 0x80 then [n as byte]
    else if n < 0x800 then [(0xC0 + n / 0x40) as byte, (0x80 + n % 0x40) as byte]
    else if n < 0x1_0000 then
      [(0xE0 + n / 0x1000) as byte, (0x80 + n / 0x40 % 0x40) as byte, (0x80 + n % 0x40) as byte]
    else
      [(0xF0 + n / 0x4_0000) as byte, (0x80 + n / 0x1000 % 0x40) as byte,
       (0x80 + n / 0x40 % 0x40) as byte, (0x80 + n % 0x40) as byte]
  }

  /** `s.encode()`: UTF-8, the Python default. */
  function Utf8(s: string): (r: seq<byte>)
    ensures |r| >= |s|
  {
    if s == [] then [] else EncodeChar(s[0]) + Utf8(s[1..])
  }

  /** Encoding distributes over concatenation. */
  lemma {:induction false} Utf8Append(a: string, b: string)
    ensures Utf8(a + b) == Utf8(a) + Utf8(b)
    decreases |a|
  {
    if a == [] {
      assert a + b == b;
    } else {
      var ab := a + b;
      assert ab[0] == a[0] && ab[1..] == a[1..] + b;
      calc {
        Utf8(ab);
        EncodeChar(a[0]) + Utf8(a[1..] + b);
        { Utf8Append(a[1..], b); }
        EncodeChar(a[0]) + (Utf8(a[1..]) + Utf8(b));
        Utf8(a) + Utf8(b);
      }
    }
  }

  /** An ASCII string encodes byte for byte. */
  lemma {:induction false} Utf8Ascii(s: string)
    requires IsAscii(s)
    ensures |Utf8(s)| == |s| && IsAsciiBytes(Utf8(s))
    ensures forall i :: 0 <= i < |s| ==> Utf8(s)[i] as int == s[i] as int
  {
    if s != [] {
      Utf8Ascii(s[1..]);
    }
  }

  /** Decoding of received bytes, one byte to one character; `None` where a
      byte is not ASCII and Python's decoder would raise. */
  function DecodeAscii(b: seq<byte>): (r: Option<string>)
    ensures r.Some? <==> IsAsciiBytes(b)
    ensures r.Some? ==> IsAscii(r.value) && Utf8(r.value) == b
  {
    if b == [] then Some([])
    else if b[0] >= 128 then None
    else
      match DecodeAscii(b[1..])
      case None => None
      case Some(t) =>
        var c := (b[0] as int) as char;
        assert Utf8([c] + t) == EncodeChar(c) + Utf8(t);
        Some([c] + t)
  }

  /** Decoding inverts encoding on ASCII text. */
  lemma {:induction false} DecodeUtf8Ascii(s: string)
    requires IsAscii(s)
    ensures DecodeAscii(Utf8(s)) == Some(s)
  {
    if s != [] {
      DecodeUtf8Ascii(s[1..]);
      var b := Utf8(s);
      assert b == EncodeChar(s[0]) + Utf8(s[1..]);
      assert b[0] as int == s[0] as int;
      assert b[1..] == Utf8(s[1..]);
      assert (b[0] as int) as char == s[0];
      assert s == [s[0]] + s[1..];
    }
  }

  /** Text that fits on one line of the wire: ASCII without CR or LF. */
  predicate IsLineText(s: string) {
    IsAscii(s) && forall i :: 0 <= i < |s| ==> s[i] != '\r' && s[i] != '\n'
  }

  /** One-line text encodes to bytes free of CR and LF, and decodes back. */
  lemma LineTextBytes(s: string)
    requires IsLineText(s)
    ensures CR !in Utf8(s) && LF !in Utf8(s)
    ensures DecodeAscii(Utf8(s)) == Some(s)
  {
    Utf8Ascii(s);
    DecodeUtf8Ascii(s);
    var b := Utf8(s);
    forall i | 0 <= i < |b| ensures b[i] != CR && b[i] != LF {
      assert b[i] as int == s[i] as int;
    }
  }
}
