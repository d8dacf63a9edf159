/**
  `decodeBase64Url` of the Gmail relay: Gmail delivers message bodies in the
  base64url alphabet (section 5 of RFC 4648); the relay maps it back onto the
  standard alphabet (section 4 of RFC 4648) and hands the result to Node's
  base64 decoder. The model stops at the decoded bytes.
*/
module Base64Url {
  import opened Common

  newtype byte = x: int | 0 <= x < 256

  /** A base64 digit: a six-bit value. */
  type sextet = x: nat | x < 64

  /** The value of a character of the standard alphabet, if it is one. */
  function StdValue(c: char): (r: Option<sextet>)
  {
    if 'A' <= c <= 'Z' then Some((c as int - 'A' as int) as sextet)
    else if 'a' <= c <= 'z' then Some((c as int - 'a' as int + 26) as sextet)
    else if '0' <= c <= '9' then Some((c as int - '0' as int + 52) as sextet)
    else if c == '+' then Some(62)
    else if c == '/' then Some(63)
    else None
  }

  /** The character for `v` in the base64url alphabet: `-` and `_` stand for 62 and 63. */
  function UrlChar(v: sextet): (c: char)
  {
    if v < 26 then ('A' as int + v) as char
    else if v < 52 then ('a' as int + v - 26) as char
    else if v < 62 then ('0' as int + v - 52) as char
    else if v == 62 then '-'
    else '_'
  }

  /** One character of `data.replace(/-/g, '+').replace(/_/g, '/')`. */
  function ToStandardChar(c: char): char {
    if c == '-' then '+' else if c == '_' then '/' else c
  }

  /** `data.replace(/-/g, '+').replace(/_/g, '/')`. */
  function ToStandardAlphabet(data: string): (r: string)
    ensures |r| == |data|
    ensures forall i :: 0 <= i < |r| ==> r[i] != '-' && r[i] != '_'
    ensures forall i :: 0 <= i < |data| && data[i] != '-' && data[i] != '_' ==> r[i] == data[i]
    ensures forall i :: 0 <= i < |data| && data[i] == '-' ==> r[i] == '+'
    ensures forall i :: 0 <= i < |data| && data[i] == '_' ==> r[i] == '/'
  {
    seq(|data|, i requires 0 <= i < |data| => ToStandardChar(data[i]))
  }

  /** The digits Node's lenient base64 decoder reads: the values of the
      alphabet characters before the first `=`; other characters are skipped. */
  function Sextets(s: string): (r: seq<sextet>)
    ensures |r| <= |s|
  {
    if s == [] || s[0] == '=' then []
    else
      match StdValue(s[0])
      case Some(v) => [v] + Sextets(s[1..])
      case None => Sextets(s[1..])
  }

  /** The three bytes a group of four digits carries; a final group of
      two or three digits carries one or two bytes. */
  function Byte0(a: sextet, b: sextet): byte { (a * 4 + b / 16) as byte }
  function Byte1(b: sextet, c: sextet): byte { ((b % 16) * 16 + c / 4) as byte }
  function Byte2(c: sextet, d: sextet): byte { ((c % 4) * 64 + d) as byte }

  function DecodeSextets(v: seq<sextet>): (r: seq<byte>)
    ensures |r| == |v| / 4 * 3 + (if |v| % 4 == 0 then 0 else |v| % 4 - 1)
  {
    if |v| >= 4 then [Byte0(v[0], v[1]), Byte1(v[1], v[2]), Byte2(v[2], v[3])] + DecodeSextets(v[4..])
    else if |v| == 3 then [Byte0(v[0], v[1]), Byte1(v[1], v[2])]
    else if |v| == 2 then [Byte0(v[0], v[1])]
    else []
  }

  /** `decodeBase64Url`, up to the bytes Node's decoder produces. */
  function DecodeBase64Url(data: string): seq<byte> {
    DecodeSextets(Sextets(ToStandardAlphabet(data)))
  }

  /** The digits of a group of three bytes, most significant bits first;
      a final group of one or two bytes is filled with zero bits. */
  function Digit0(x: byte): sextet { (x / 4) as sextet }
  function Digit1(x: byte, y: byte): sextet { ((x % 4) * 16 + y / 16) as sextet }
  function Digit2(y: byte, z: byte): sextet { ((y % 16) * 4 + z / 64) as sextet }
  function Digit3(z: byte): sextet { (z % 64) as sextet }

  /** The digits of the base64 encoding of `b` (section 4 of RFC 4648). */
  function EncodeSextets(b: seq<byte>): (v: seq<sextet>)
    ensures |v| == |b| / 3 * 4 + (if |b| % 3 == 0 then 0 else |b| % 3 + 1)
  {
    if |b| >= 3 then [Digit0(b[0]), Digit1(b[0], b[1]), Digit2(b[1], b[2]), Digit3(b[2])] + EncodeSextets(b[3..])
    else if |b| == 2 then [Digit0(b[0]), Digit1(b[0], b[1]), Digit2(b[1], 0)]
    else if |b| == 1 then [Digit0(b[0]), Digit1(b[0], 0)]
    else []
  }

  function UrlString(v: seq<sextet>): (r: string)
    ensures |r| == |v|
  {
    seq(|v|, i requires 0 <= i < |v| => UrlChar(v[i]))
  }

  /** The `=` characters that pad an encoding of `n` bytes to a multiple of four. */
  function Padding(n: nat): string {
    if n % 3 == 1 then "==" else if n % 3 == 2 then "=" else ""
  }

  /** The base64url encoding of `b` (section 5 of RFC 4648), with or without
      the `=` padding of the final group. */
  function EncodeBase64Url(b: seq<byte>, padded: bool): string {
    UrlString(EncodeSextets(b)) + (if padded then Padding(|b|) else "")
  }

  // ---------------------------------------------------------------------
  // Round trip
  // ---------------------------------------------------------------------

  /** Mapped onto the standard alphabet, a base64url digit reads back as its value. */
  lemma UrlCharReadsBack(v: sextet)
    ensures ToStandardChar(UrlChar(v)) != '='
    ensures StdValue(ToStandardChar(UrlChar(v))) == Some(v)
  {
  }

  /** Reading the digits back: the standard-alphabet form of a base64url
      string, optionally followed by padding, yields its digits. */
  lemma {:induction false} ReadUrlString(v: seq<sextet>, pad: string)
    requires pad == [] || pad[0] == '='
    ensures Sextets(ToStandardAlphabet(UrlString(v) + pad)) == v
  {
    var s := UrlString(v) + pad;
    var std := ToStandardAlphabet(s);
    if v == [] {
      assert s == pad;
    } else {
      UrlCharReadsBack(v[0]);
      assert std[0] == ToStandardChar(UrlChar(v[0]));
      assert s[1..] == UrlString(v[1..]) + pad;
      assert std[1..] == ToStandardAlphabet(s[1..]);
      ReadUrlString(v[1..], pad);
      assert v == [v[0]] + v[1..];
    }
  }

  /** The three bytes of a group come back from its four digits. */
  lemma GroupRoundTrip(x: byte, y: byte, z: byte)
    ensures Byte0(Digit0(x), Digit1(x, y)) == x
    ensures Byte1(Digit1(x, y), Digit2(y, z)) == y
    ensures Byte2(Digit2(y, z), Digit3(z)) == z
  {
  }

  /** A full group: its four digits decode to its three bytes, ahead of the rest. */
  lemma DecodeFullGroup(b: seq<byte>)
    requires |b| >= 3
    ensures DecodeSextets(EncodeSextets(b)) == [b[0], b[1], b[2]] + DecodeSextets(EncodeSextets(b[3..]))
  {
    var v := EncodeSextets(b);
    GroupRoundTrip(b[0], b[1], b[2]);
    assert v[4..] == EncodeSextets(b[3..]);
  }

  /** A final group of two bytes decodes back from its three digits. */
  lemma DecodeTwoByteGroup(x: byte, y: byte)
    ensures DecodeSextets(EncodeSextets([x, y])) == [x, y]
  {
    var v := EncodeSextets([x, y]);
    assert v == [Digit0(x), Digit1(x, y), Digit2(y, 0)];
    GroupRoundTrip(x, y, 0);
  }

  /** A final group of one byte decodes back from its two digits. */
  lemma DecodeOneByteGroup(x: byte)
    ensures DecodeSextets(EncodeSextets([x])) == [x]
  {
    var v := EncodeSextets([x]);
    assert v == [Digit0(x), Digit1(x, 0)];
    assert DecodeSextets(v) == [Byte0(v[0], v[1])];
    GroupRoundTrip(x, 0, 0);
  }

  /** Decoding the digits of an encoding yields the bytes. */
  lemma {:induction false} DecodeEncodeSextets(b: seq<byte>)
    ensures DecodeSextets(EncodeSextets(b)) == b
  {
    if |b| >= 3 {
      DecodeFullGroup(b);
      DecodeEncodeSextets(b[3..]);
      assert b == [b[0], b[1], b[2]] + b[3..];
    } else if |b| == 2 {
      DecodeTwoByteGroup(b[0], b[1]);
      assert b == [b[0], b[1]];
    } else if |b| == 1 {
      DecodeOneByteGroup(b[0]);
      assert b == [b[0]];
    }
  }

  /** Decoding the base64url encoding of any byte sequence yields those
      bytes, whether or not the final group is padded with `=`. */
  lemma DecodeEncode(b: seq<byte>, padded: bool)
    ensures DecodeBase64Url(EncodeBase64Url(b, padded)) == b
  {
    ReadUrlString(EncodeSextets(b), if padded then Padding(|b|) else "");
    DecodeEncodeSextets(b);
  }
}
