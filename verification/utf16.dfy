/**
 .NET strings as the runtime stores them: sequences of UTF-16 code units.
 `string.Length` and the range operator `s[..n]` count and cut code units,
 so a character above U+FFFF takes two of them (a surrogate pair) and a cut
 may fall between the two.
 */
module Utf16 {
  import opened Wrappers
  import opened Text

  /** One UTF-16 code unit, a .NET `char`. */
  type CodeUnit = u: int | 0 <= u < 0x1_0000

  predicate IsHighSurrogate(u: CodeUnit) {
    0xD800 <= u < 0xDC00
  }

  predicate IsLowSurrogate(u: CodeUnit) {
    0xDC00 <= u < 0xE000
  }

  predicate IsSurrogate(u: CodeUnit) {
    0xD800 <= u < 0xE000
  }

  /** The code units of one Unicode scalar value: the value itself below
      U+10000, a high and a low surrogate above, which together give the
      value back. */
  function EncodeChar(c: char): (r: seq<CodeUnit>)
    ensures c as int < 0x1_0000 ==> r == [c as int]
    ensures c as int >= 0x1_0000 ==>
              && |r| == 2 && IsHighSurrogate(r[0]) && IsLowSurrogate(r[1])
              && (r[0] as int - 0xD800) * 0x400 + (r[1] as int - 0xDC00) + 0x1_0000 == c as int
  {
    var v := c as int;
    if v < 0x1_0000 then [v]
    else
      var w := v - 0x1_0000;
      [0xD800 + w / 0x400, 0xDC00 + w % 0x400]
  }

  /** The .NET string holding the text `s`. */
  function Encode(s: string): (r: seq<CodeUnit>)
    ensures |s| <= |r| <= 2 * |s|
    decreases |s|
  {
    if |s| == 0 then [] else EncodeChar(s[0]) + Encode(s[1..])
  }

  /** `char.IsWhiteSpace` on one code unit: no surrogate is white space. */
  predicate IsWhiteSpaceUnit(u: CodeUnit) {
    !IsSurrogate(u) && IsWhiteSpace(u as char)
  }

  /** `string.IsNullOrWhiteSpace` for a non-null string of code units. */
  predicate IsBlankUnits(s: seq<CodeUnit>) {
    forall i :: 0 <= i < |s| ==> IsWhiteSpaceUnit(s[i])
  }

  /** `string.IsNullOrWhiteSpace`. */
  predicate IsNullOrBlankUnits(s: Option<seq<CodeUnit>>) {
    s.None? || IsBlankUnits(s.value)
  }

  /** Every white-space character lies below U+10000. */
  lemma WhiteSpaceIsBasic(c: char)
    requires IsWhiteSpace(c)
    ensures c as int < 0x1_0000
  {
  }

  /** One character's code units are blank exactly when it is white space. */
  lemma BlankEncodeChar(c: char)
    ensures IsBlankUnits(EncodeChar(c)) <==> IsWhiteSpace(c)
  {
    var r := EncodeChar(c);
    if c as int < 0x1_0000 {
      assert (c as int) as char == c;
      assert r[0] == c as int;
    } else {
      if IsWhiteSpace(c) {
        WhiteSpaceIsBasic(c);
      }
      assert !IsWhiteSpaceUnit(r[0]);
    }
  }

  lemma BlankUnitsAppend(a: seq<CodeUnit>, b: seq<CodeUnit>)
    ensures IsBlankUnits(a + b) <==> IsBlankUnits(a) && IsBlankUnits(b)
  {
    assert forall i :: 0 <= i < |a| ==> (a + b)[i] == a[i];
    assert forall i :: 0 <= i < |b| ==> (a + b)[|a| + i] == b[i];
    if IsBlankUnits(a) && IsBlankUnits(b) {
      forall i | 0 <= i < |a + b|
        ensures IsWhiteSpaceUnit((a + b)[i])
      {
        if i >= |a| {
          assert (a + b)[i] == b[i - |a|];
        }
      }
    }
  }

  /** A text is blank exactly when the .NET string holding it is: the two
      notions of `IsNullOrWhiteSpace` agree. */
  lemma {:induction false} BlankOfEncode(s: string)
    ensures IsBlankUnits(Encode(s)) <==> IsBlank(s)
    decreases |s|
  {
    if |s| > 0 {
      BlankOfEncode(s[1..]);
      BlankEncodeChar(s[0]);
      BlankUnitsAppend(EncodeChar(s[0]), Encode(s[1..]));
      if IsWhiteSpace(s[0]) && IsBlank(s[1..]) {
        assert forall i :: 1 <= i < |s| ==> s[i] == s[1..][i - 1];
      }
    }
  }

  /** A text below U+10000 takes one code unit per character. */
  lemma {:induction false} EncodeBasic(s: string)
    requires forall i :: 0 <= i < |s| ==> s[i] as int < 0x1_0000
    ensures |Encode(s)| == |s|
    ensures forall i :: 0 <= i < |s| ==> Encode(s)[i] == s[i] as int
    decreases |s|
  {
    if |s| > 0 {
      EncodeBasic(s[1..]);
    }
  }

  /** For a text below U+10000, encoding a prefix is taking a prefix of
      the encoding. */
  lemma EncodeBasicPrefix(s: string, n: nat)
    requires forall i :: 0 <= i < |s| ==> s[i] as int < 0x1_0000
    requires n <= |s|
    ensures Encode(s[..n]) == Encode(s)[..n]
  {
    var p := s[..n];
    EncodeBasic(s);
    EncodeBasic(p);
    assert forall i :: 0 <= i < n ==> Encode(p)[i] == Encode(s)[i];
  }

  /** A text made only of characters above U+FFFF takes two code units per
      character, all of them surrogates. */
  lemma {:induction false} EncodeAstral(s: string)
    requires forall i :: 0 <= i < |s| ==> s[i] as int >= 0x1_0000
    ensures |Encode(s)| == 2 * |s|
    ensures forall k :: 0 <= k < |Encode(s)| ==> IsSurrogate(Encode(s)[k])
    decreases |s|
  {
    if |s| > 0 {
      EncodeAstral(s[1..]);
      var head := EncodeChar(s[0]);
      var tail := Encode(s[1..]);
      assert Encode(s) == head + tail;
      forall k | 0 <= k < |Encode(s)|
        ensures IsSurrogate(Encode(s)[k])
      {
        if k >= 2 {
          assert Encode(s)[k] == tail[k - 2];
        }
      }
    }
  }

  /** In such a text the character at index `j` starts at code unit `2 * j`
      with its high surrogate. */
  lemma {:induction false} AstralHighAt(s: string, j: nat)
    requires forall i :: 0 <= i < |s| ==> s[i] as int >= 0x1_0000
    requires j < |s|
    ensures 2 * j + 1 < |Encode(s)|
    ensures IsHighSurrogate(Encode(s)[2 * j])
    decreases j
  {
    EncodeAstral(s);
    var tail := Encode(s[1..]);
    assert Encode(s) == EncodeChar(s[0]) + tail;
    if j > 0 {
      AstralHighAt(s[1..], j - 1);
      assert Encode(s)[2 * j] == tail[2 * (j - 1)];
    }
  }
}
