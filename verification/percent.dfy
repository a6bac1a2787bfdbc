/**
 `Uri.EscapeDataString`: percent-encoding as section 2.1 of RFC 3986
 defines it, leaving only the unreserved characters of its section 2.3
 literal. Every other character is written as the `%HH` escapes of its
 UTF-8 bytes, with upper-case hexadecimal digits.
 */
module PercentEncoding {
  import opened Wrappers
  import opened Utf8

  /** The unreserved characters of section 2.3 of RFC 3986. */
  predicate IsUnreserved(c: char) {
    || 'A' <= c <= 'Z' || 'a' <= c <= 'z' || '0' <= c <= '9'
    || c == '-' || c == '.' || c == '_' || c == '~'
  }

  predicate IsUpperHex(c: char) {
    '0' <= c <= '9' || 'A' <= c <= 'F'
  }

  /** The upper-case hexadecimal digit of a value below 16. */
  function HexDigit(v: int): (c: char)
    requires 0 <= v < 16
    ensures IsUpperHex(c)
  {
    if v < 10 then ('0' as int + v) as char else ('A' as int + v - 10) as char
  }

  /** The value of a hexadecimal digit: the inverse of `HexDigit`. */
  function HexValue(c: char): (v: nat)
    requires IsUpperHex(c)
    ensures v < 16 && HexDigit(v) == c
  {
    if c <= '9' then c as int - '0' as int else c as int - 'A' as int + 10
  }

  lemma HexValueOfDigit(v: int)
    requires 0 <= v < 16
    ensures HexValue(HexDigit(v)) == v
  {
  }

  /** The characters an escaped string is made of. */
  predicate IsEscapedChar(c: char) {
    IsUnreserved(c) || c == '%'
  }

  /** `%HH` for one byte. */
  function PercentByte(b: byte): (r: string)
    ensures |r| == 3 && r[0] == '%' && IsUpperHex(r[1]) && IsUpperHex(r[2])
    ensures HexValue(r[1]) * 16 + HexValue(r[2]) == b
  {
    HexValueOfDigit(b / 16);
    HexValueOfDigit(b % 16);
    ['%', HexDigit(b / 16), HexDigit(b % 16)]
  }

  function PercentBytes(bs: seq<byte>): (r: string)
    ensures IsEscapedText(r)
    decreases |bs|
  {
    if |bs| == 0 then [] else PercentByte(bs[0]) + PercentBytes(bs[1..])
  }

  /** Text made of escaped characters and hexadecimal digits only. */
  predicate IsEscapedText(r: string) {
    forall i :: 0 <= i < |r| ==> IsEscapedChar(r[i]) || IsUpperHex(r[i])
  }

  /** One character, escaped. */
  function EscapeChar(c: char): (r: string)
    ensures |r| > 0
    ensures IsEscapedText(r)
    ensures IsUnreserved(c) <==> r == [c]
  {
    if IsUnreserved(c) then [c] else PercentBytes(EncodeScalar(c as int))
  }

  /** `Uri.EscapeDataString(s)`. */
  function EscapeDataString(s: string): (r: string)
    ensures |r| >= |s|
    ensures IsEscapedText(r)
    decreases |s|
  {
    if |s| == 0 then [] else EscapeChar(s[0]) + EscapeDataString(s[1..])
  }

  /* ---------------- the inverse ---------------- */

  /** The bytes an escaped string stands for: `%HH` is one byte, an
      unreserved character is its own ASCII byte, anything else is an
      error. */
  function UnescapeBytes(t: string): Option<seq<byte>>
    decreases |t|
  {
    if |t| == 0 then Some([])
    else if t[0] == '%' then
      if |t| < 3 || !IsUpperHex(t[1]) || !IsUpperHex(t[2]) then None
      else
        match UnescapeBytes(t[3..])
        case None => None
        case Some(rest) => Some([HexValue(t[1]) * 16 + HexValue(t[2])] + rest)
    else if IsUnreserved(t[0]) then
      match UnescapeBytes(t[1..])
      case None => None
      case Some(rest) => Some([t[0] as int] + rest)
    else None
  }

  /** Reading an escaped string back: the bytes it stands for, decoded as
      UTF-8. */
  function UnescapeDataString(t: string): Option<string> {
    match UnescapeBytes(t)
    case None => None
    case Some(bs) => Decode(bs)
  }

  lemma UnescapePercentByte(b: byte, rest: string)
    requires UnescapeBytes(rest).Some?
    ensures UnescapeBytes(PercentByte(b) + rest) == Some([b] + UnescapeBytes(rest).value)
  {
    var p := PercentByte(b);
    var whole := p + rest;
    assert whole[0] == '%' && whole[1] == p[1] && whole[2] == p[2];
    assert whole[3..] == rest;
  }

  lemma {:induction false} UnescapePercentBytes(bs: seq<byte>, t: string)
    requires UnescapeBytes(t).Some?
    ensures UnescapeBytes(PercentBytes(bs) + t) == Some(bs + UnescapeBytes(t).value)
    decreases |bs|
  {
    if |bs| == 0 {
      assert PercentBytes(bs) + t == t;
      assert bs + UnescapeBytes(t).value == UnescapeBytes(t).value;
    } else {
      UnescapePercentBytes(bs[1..], t);
      UnescapeConsStep(bs, t);
    }
  }

  /** One step of the induction above: the first byte's escape, then the
      rest. */
  lemma UnescapeConsStep(bs: seq<byte>, t: string)
    requires |bs| > 0 && UnescapeBytes(t).Some?
    requires UnescapeBytes(PercentBytes(bs[1..]) + t) == Some(bs[1..] + UnescapeBytes(t).value)
    ensures UnescapeBytes(PercentBytes(bs) + t) == Some(bs + UnescapeBytes(t).value)
  {
    var u := UnescapeBytes(t).value;
    var rest := PercentBytes(bs[1..]) + t;
    PercentBytesCons(bs, t);
    UnescapePercentByte(bs[0], rest);
    assert UnescapeBytes(PercentBytes(bs) + t) == Some([bs[0]] + (bs[1..] + u));
    ConsAssoc(bs, u);
  }

  lemma ConsAssoc<T>(xs: seq<T>, ys: seq<T>)
    requires |xs| > 0
    ensures [xs[0]] + (xs[1..] + ys) == xs + ys
  {
  }

  lemma PercentBytesCons(bs: seq<byte>, t: string)
    requires |bs| > 0
    ensures PercentBytes(bs) + t == PercentByte(bs[0]) + (PercentBytes(bs[1..]) + t)
  {
    assert PercentBytes(bs) == PercentByte(bs[0]) + PercentBytes(bs[1..]);
  }

  lemma UnescapeEscapeChar(c: char, t: string)
    requires UnescapeBytes(t).Some?
    ensures UnescapeBytes(EscapeChar(c) + t) == Some(EncodeScalar(c as int) + UnescapeBytes(t).value)
  {
    if IsUnreserved(c) {
      assert (EscapeChar(c) + t)[1..] == t;
    } else {
      UnescapePercentBytes(EncodeScalar(c as int), t);
    }
  }

  /** The escaped text stands for exactly the UTF-8 bytes of the input. */
  lemma {:induction false} UnescapeBytesOfEscape(s: string)
    ensures UnescapeBytes(EscapeDataString(s)) == Some(Encode(s))
    decreases |s|
  {
    if |s| > 0 {
      UnescapeBytesOfEscape(s[1..]);
      UnescapeEscapeChar(s[0], EscapeDataString(s[1..]));
    }
  }

  /** Escaping loses nothing: unescaping gives the input back. */
  lemma EscapeRoundTrip(s: string)
    ensures UnescapeDataString(EscapeDataString(s)) == Some(s)
  {
    UnescapeBytesOfEscape(s);
    DecodeEncode(s);
  }

  /** A string made of unreserved characters only is left as it is. */
  lemma {:induction false} EscapeUnreserved(s: string)
    requires forall i :: 0 <= i < |s| ==> IsUnreserved(s[i])
    ensures EscapeDataString(s) == s
    decreases |s|
  {
    if |s| > 0 {
      EscapeUnreserved(s[1..]);
      assert [s[0]] + s[1..] == s;
    }
  }
}
