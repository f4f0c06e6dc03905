/** Bytes and `String.getBytes("UTF-8")`: every response is written as the
    UTF-8 encoding of its header text followed by the body bytes. */
module Utf8 {

  newtype byte = b: int | 0 <= b < 256

  const CR: byte := 13
  const LF: byte := 10
  const SP: byte := 32

  predicate IsAscii(s: string)
  {
    forall i :: 0 <= i < |s| ==> s[i] as int < 0x80
  }

  /** The UTF-8 encoding of one Unicode scalar value (one to four bytes). */
  function EncodeChar(c: char): (r: seq<byte>)
    ensures 1 <= |r| <= 4
    ensures c as int < 0x80 ==> r == [c as int as byte]
    ensures c as int >= 0x80 ==> forall i :: 0 <= i < |r| ==> r[i] >= 0x80
  {
    var v := c as int;
    if v < 0x80 then [v as byte]
    else if v < 0x800 then [(0xC0 + v / 64) as byte, (0x80 + v % 64) as byte]
    else if v < 0x1_0000 then
      [(0xE0 + v / 4096) as byte, (0x80 + (v / 64) % 64) as byte, (0x80 + v % 64) as byte]
    else
      [(0xF0 + v / 262144) as byte, (0x80 + (v / 4096) % 64) as byte,
       (0x80 + (v / 64) % 64) as byte, (0x80 + v % 64) as byte]
  }

  /** `s.getBytes("UTF-8")`. */
  function Encode(s: string): (r: seq<byte>)
    ensures |r| >= |s|
  {
    if s == [] then [] else EncodeChar(s[0]) + Encode(s[1..])
  }

  /** Encoding is compatible with concatenation. */
  lemma {:induction false} EncodeConcat(a: string, b: string)
    ensures Encode(a + b) == Encode(a) + Encode(b)
  {
    if a == [] {
      assert a + b == b;
    } else {
      assert (a + b)[0] == a[0] && (a + b)[1..] == a[1..] + b;
      EncodeConcat(a[1..], b);
    }
  }

  /** An ASCII byte occurs in the encoding exactly where its character
      occurs in the text: multi-byte sequences use only bytes >= 0x80. */
  lemma {:induction false} EncodeAsciiByte(s: string, c: char)
    requires c as int < 0x80
    ensures (c as int as byte in Encode(s)) <==> c in s
  {
    if s != [] {
      EncodeAsciiByte(s[1..], c);
      assert s == [s[0]] + s[1..];
    }
  }

  /** On ASCII text the encoding is one byte per character. */
  lemma {:induction false} EncodeAscii(s: string)
    requires IsAscii(s)
    ensures |Encode(s)| == |s|
    ensures forall i :: 0 <= i < |s| ==> Encode(s)[i] == s[i] as int as byte
  {
    if s != [] {
      EncodeAscii(s[1..]);
    }
  }

  /** Reading bytes back as ISO-8859-1 characters (one char per byte). */
  function Latin1(bs: seq<byte>): (r: string)
    ensures |r| == |bs|
  {
    seq(|bs|, i requires 0 <= i < |bs| => bs[i] as int as char)
  }

  lemma Latin1Concat(a: seq<byte>, b: seq<byte>)
    ensures Latin1(a + b) == Latin1(a) + Latin1(b)
  {
    assert forall i :: 0 <= i < |a| + |b| ==> Latin1(a + b)[i] == (Latin1(a) + Latin1(b))[i];
  }

  /** For ASCII text, the bytes read back one per character give the text. */
  lemma Latin1Encode(s: string)
    requires IsAscii(s)
    ensures Latin1(Encode(s)) == s
  {
    EncodeAscii(s);
  }
}
