/**
 UTF-8 as RFC 3629 defines it: the byte form percent-encoding escapes.
 A Dafny `char` is a Unicode scalar value, so every string has exactly one
 encoding; the decoder below is strict and reads every encoding back.
 */
module Utf8 {
  import opened Wrappers

  type byte = b: int | 0 <= b < 256

  /** A Unicode scalar value: a code point that is not a surrogate. */
  predicate IsScalar(n: int) {
    0 <= n < 0xD800 || 0xE000 <= n <= 0x10FFFF
  }

  predicate IsContinuation(b: byte) {
    0x80 <= b < 0xC0
  }

  /** The one to four bytes of a scalar value (section 3 of RFC 3629). */
  function EncodeScalar(n: int): (bs: seq<byte>)
    requires IsScalar(n)
    ensures 1 <= |bs| <= 4
    ensures |bs| == 1 <==> n < 0x80
    ensures |bs| == 1 ==> bs[0] == n
    ensures forall i :: 1 <= i < |bs| ==> IsContinuation(bs[i])
  {
    if n < 0x80 then [n]
    else if n < 0x800 then [0xC0 + n / 64, 0x80 + n % 64]
    else if n < 0x10000 then [0xE0 + n / 4096, 0x80 + (n / 64) % 64, 0x80 + n % 64]
    else [0xF0 + n / 262144, 0x80 + (n / 4096) % 64, 0x80 + (n / 64) % 64, 0x80 + n % 64]
  }

  /** The encoding of a string: its characters' encodings, in order. */
  function Encode(s: string): seq<byte>
    decreases |s|
  {
    if |s| == 0 then [] else EncodeScalar(s[0] as int) + Encode(s[1..])
  }

  /** The scalar value that starts `bs` and how many bytes it takes, or
      `None` when `bs` does not start with a well-formed sequence (a stray
      continuation byte, a truncated sequence, an overlong form, a surrogate
      or a value past U+10FFFF). */
  function DecodeFirst(bs: seq<byte>): (r: Option<(char, nat)>)
    ensures r.Some? ==> 1 <= r.value.1 <= |bs|
  {
    if |bs| == 0 then None
    else
      var b0: int := bs[0];
      if b0 < 0x80 then Some((b0 as char, 1))
      else if 0xC2 <= b0 < 0xE0 then
        if |bs| < 2 || !IsContinuation(bs[1]) then None
        else
          var b1: int := bs[1];
          Some((((b0 - 0xC0) * 64 + (b1 - 0x80)) as char, 2))
      else if 0xE0 <= b0 < 0xF0 then
        if |bs| < 3 || !IsContinuation(bs[1]) || !IsContinuation(bs[2]) then None
        else
          var b1: int, b2: int := bs[1], bs[2];
          var n := (b0 - 0xE0) * 4096 + (b1 - 0x80) * 64 + (b2 - 0x80);
          if n < 0x800 || (0xD800 <= n < 0xE000) then None else Some((n as char, 3))
      else if 0xF0 <= b0 < 0xF5 then
        if |bs| < 4 || !IsContinuation(bs[1]) || !IsContinuation(bs[2]) || !IsContinuation(bs[3]) then None
        else
          var b1: int, b2: int, b3: int := bs[1], bs[2], bs[3];
          var n := (b0 - 0xF0) * 262144 + (b1 - 0x80) * 4096 + (b2 - 0x80) * 64 + (b3 - 0x80);
          if n < 0x10000 || n > 0x10FFFF then None else Some((n as char, 4))
      else None
  }

  /** Strict decoding of a whole byte sequence. */
  function Decode(bs: seq<byte>): Option<string>
    decreases |bs|
  {
    if |bs| == 0 then Some([])
    else
      match DecodeFirst(bs)
      case None => None
      case Some(first) =>
        match Decode(bs[first.1..])
        case None => None
        case Some(rest) => Some([first.0] + rest)
  }

  /* ---------------- the round trip ---------------- */

  /** Splitting a value into 6-bit groups and joining them again. */
  lemma Groups(n: nat)
    ensures n / 4096 == (n / 64) / 64
    ensures n / 262144 == (n / 4096) / 64
    ensures (n / 64) * 64 + n % 64 == n
  {
    var q := n / 64;
    var r := n % 64;
    assert n == q * 64 + r;
    var q2 := q / 64;
    assert q == q2 * 64 + q % 64;
    assert n == q2 * 4096 + (q % 64) * 64 + r;
    var q3 := q2 / 64;
    assert q2 == q3 * 64 + q2 % 64;
  }

  lemma DecodeTwo(n: int, rest: seq<byte>)
    requires 0x80 <= n < 0x800
    ensures DecodeFirst(EncodeScalar(n) + rest) == Some((n as char, 2))
  {
    Groups(n);
    var bs := EncodeScalar(n) + rest;
    assert bs[0] == 0xC0 + n / 64 && bs[1] == 0x80 + n % 64;
  }

  lemma DecodeThree(n: int, rest: seq<byte>)
    requires 0x800 <= n < 0x10000 && IsScalar(n)
    ensures DecodeFirst(EncodeScalar(n) + rest) == Some((n as char, 3))
  {
    Groups(n);
    var q := n / 64;
    Groups(q);
    var bs := EncodeScalar(n) + rest;
    assert bs[0] == 0xE0 + n / 4096 && bs[1] == 0x80 + q % 64 && bs[2] == 0x80 + n % 64;
    assert (n / 4096) * 4096 + (q % 64) * 64 + n % 64 == n;
  }

  lemma DecodeFour(n: int, rest: seq<byte>)
    requires 0x10000 <= n <= 0x10FFFF
    ensures DecodeFirst(EncodeScalar(n) + rest) == Some((n as char, 4))
  {
    Groups(n);
    var q := n / 64;
    Groups(q);
    var q2 := n / 4096;
    Groups(q2);
    var bs := EncodeScalar(n) + rest;
    assert bs[0] == 0xF0 + n / 262144 && bs[1] == 0x80 + q2 % 64;
    assert bs[2] == 0x80 + q % 64 && bs[3] == 0x80 + n % 64;
    assert (n / 262144) * 262144 + (q2 % 64) * 4096 + (q % 64) * 64 + n % 64 == n;
  }

  /** The decoder reads back the first character of an encoding. */
  lemma DecodeFirstOfEncoding(c: char, rest: seq<byte>)
    ensures DecodeFirst(EncodeScalar(c as int) + rest) == Some((c, |EncodeScalar(c as int)|))
  {
    var n := c as int;
    if n < 0x80 {
    } else if n < 0x800 {
      DecodeTwo(n, rest);
    } else if n < 0x10000 {
      DecodeThree(n, rest);
    } else {
      DecodeFour(n, rest);
    }
  }

  /** Decoding inverts encoding. */
  lemma {:induction false} DecodeEncode(s: string)
    ensures Decode(Encode(s)) == Some(s)
    decreases |s|
  {
    if |s| > 0 {
      var head := EncodeScalar(s[0] as int);
      var tail := Encode(s[1..]);
      DecodeFirstOfEncoding(s[0], tail);
      assert (head + tail)[|head|..] == tail;
      DecodeEncode(s[1..]);
      assert [s[0]] + s[1..] == s;
    }
  }

  /** Encoding is one-to-one: different strings have different bytes. */
  lemma EncodeInjective(a: string, b: string)
    requires Encode(a) == Encode(b)
    ensures a == b
  {
    DecodeEncode(a);
    DecodeEncode(b);
  }
}
