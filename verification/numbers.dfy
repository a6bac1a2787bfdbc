/**
 Decimal text of integers: how C# string interpolation prints an `int`
 (invariant culture) and how `int.TryParse` reads one back with the default
 `NumberStyles.Integer` (leading and trailing white, a leading sign).
 */
module Numbers {
  import opened Wrappers

  const MinInt32: int := -0x8000_0000
  const MaxInt32: int := 0x7FFF_FFFF

  /** A C# `int`. */
  type Int32 = x: int | MinInt32 <= x <= MaxInt32

  predicate IsDigit(c: char) {
    '0' <= c <= '9'
  }

  predicate AllDigits(s: string) {
    forall i :: 0 <= i < |s| ==> IsDigit(s[i])
  }

  function DigitChar(d: int): (c: char)
    requires 0 <= d < 10
    ensures IsDigit(c)
  {
    ('0' as int + d) as char
  }

  function DigitValue(c: char): (d: nat)
    requires IsDigit(c)
    ensures d < 10
  {
    (c as int - '0' as int)
  }

  /** The value of a string of decimal digits (leading zeros allowed). */
  function DigitsValue(s: string): nat
    requires AllDigits(s)
    decreases |s|
  {
    if |s| == 0 then 0 else DigitsValue(s[..|s| - 1]) * 10 + DigitValue(s[|s| - 1])
  }

  /** The shortest decimal text of a natural number. */
  function NatToDecimal(n: nat): (r: string)
    ensures |r| > 0 && AllDigits(r)
    ensures |r| > 1 ==> r[0] != '0'
    decreases n
  {
    if n < 10 then [DigitChar(n)] else NatToDecimal(n / 10) + [DigitChar(n % 10)]
  }

  /** `int.ToString()` in the invariant culture. */
  function IntToDecimal(n: int): (r: string)
    ensures |r| > 0
    ensures n >= 0 ==> AllDigits(r)
    ensures n < 0 ==> r[0] == '-' && AllDigits(r[1..])
  {
    if n < 0 then "-" + NatToDecimal(-n) else NatToDecimal(n)
  }

  /** Reading the digits back gives the number: decimal text is lossless. */
  lemma {:induction false} DigitsOfNat(n: nat)
    ensures DigitsValue(NatToDecimal(n)) == n
    decreases n
  {
    if n >= 10 {
      var r := NatToDecimal(n);
      DigitsOfNat(n / 10);
      assert r[..|r| - 1] == NatToDecimal(n / 10);
    }
  }

  /* ---------------- int.TryParse ---------------- */

  /** The white space `NumberStyles.AllowLeadingWhite`/`AllowTrailingWhite`
      accept: U+0009..U+000D and U+0020. */
  predicate IsNumberWhite(c: char) {
    c == ' ' || ('\t' <= c <= '\r')
  }

  /** The number of white characters `s` starts with. */
  function NumberWhiteLength(s: string): (n: nat)
    ensures n <= |s|
    ensures forall i :: 0 <= i < n ==> IsNumberWhite(s[i])
    ensures n < |s| ==> !IsNumberWhite(s[n])
    decreases |s|
  {
    if |s| > 0 && IsNumberWhite(s[0]) then 1 + NumberWhiteLength(s[1..]) else 0
  }

  /** The number of digits `s` starts with. */
  function DigitCount(s: string): (n: nat)
    ensures n <= |s|
    ensures forall i :: 0 <= i < n ==> IsDigit(s[i])
    ensures n < |s| ==> !IsDigit(s[n])
    decreases |s|
  {
    if |s| > 0 && IsDigit(s[0]) then 1 + DigitCount(s[1..]) else 0
  }

  function SkipNumberWhite(s: string): string {
    s[NumberWhiteLength(s)..]
  }

  predicate AllNul(s: string) {
    forall i :: 0 <= i < |s| ==> s[i] == '\0'
  }

  /** `int.TryParse(s, out value)`: optional white, an optional `+` or `-`,
      at least one ASCII digit, optional white, and then nothing but NUL
      characters; the value must fit an `int`. A null string fails. */
  function ParseInt32(input: Option<string>): (r: Option<Int32>)
    ensures input.None? ==> r.None?
    ensures r.Some? ==> exists i :: 0 <= i < |input.value| && IsDigit(input.value[i])
  {
    if input.None? then None else ParseSigned(SkipNumberWhite(input.value))
  }

  /** The text after the leading white: an optional sign, then the rest. */
  function ParseSigned(a: string): Option<Int32>
  {
    if |a| > 0 && a[0] == '-' then ParseMagnitude(a[1..], true)
    else if |a| > 0 && a[0] == '+' then ParseMagnitude(a[1..], false)
    else ParseMagnitude(a, false)
  }

  function Signed(negative: bool, magnitude: nat): int {
    if negative then 0 - magnitude else magnitude
  }

  /** The digits, then trailing white, then only NUL characters. */
  function ParseMagnitude(b: string, negative: bool): Option<Int32>
  {
    var n := DigitCount(b);
    var tail := SkipNumberWhite(b[n..]);
    var value := Signed(negative, DigitsValue(b[..n]));
    if n > 0 && AllNul(tail) && MinInt32 <= value <= MaxInt32 then Some(value)
    else None
  }

  lemma {:induction false} NumberWhitePrefix(w: string, s: string)
    requires forall i :: 0 <= i < |w| ==> IsNumberWhite(w[i])
    ensures NumberWhiteLength(w + s) == |w| + NumberWhiteLength(s)
    decreases |w|
  {
    if |w| == 0 {
      assert w + s == s;
    } else {
      assert (w + s)[0] == w[0];
      assert (w + s)[1..] == w[1..] + s;
      NumberWhitePrefix(w[1..], s);
    }
  }

  lemma SkipNumberWhiteAll(w: string, s: string)
    requires forall i :: 0 <= i < |w| ==> IsNumberWhite(w[i])
    requires s == [] || !IsNumberWhite(s[0])
    ensures SkipNumberWhite(w + s) == s
  {
    NumberWhitePrefix(w, s);
    assert (w + s)[|w|..] == s;
  }

  /** `int.TryParse` reads back what `int.ToString` printed, even with white
      space around it. */
  lemma ParseInt32OfDecimal(n: Int32, lead: string, trail: string)
    requires forall i :: 0 <= i < |lead| ==> IsNumberWhite(lead[i])
    requires forall i :: 0 <= i < |trail| ==> IsNumberWhite(trail[i])
    ensures ParseInt32(Some(lead + IntToDecimal(n) + trail)) == Some(n)
  {
    var negative := n < 0;
    var m: nat := if negative then 0 - n else n;
    var digits := NatToDecimal(m);
    DigitsOfNat(m);
    assert Signed(negative, DigitsValue(digits)) == n;
    var sign := SignText(negative);
    assert IntToDecimal(n) == sign + digits;
    Assoc3(lead, sign, digits, trail);
    assert lead + IntToDecimal(n) + trail == lead + (sign + (digits + trail));
    ParseParts(lead, negative, digits, trail);
  }

  function SignText(negative: bool): string {
    if negative then "-" else ""
  }

  /** The grammar `int.TryParse` accepts, piece by piece. */
  lemma ParseParts(lead: string, negative: bool, digits: string, trail: string)
    requires forall i :: 0 <= i < |lead| ==> IsNumberWhite(lead[i])
    requires |digits| > 0 && AllDigits(digits)
    requires forall i :: 0 <= i < |trail| ==> IsNumberWhite(trail[i])
    requires MinInt32 <= Signed(negative, DigitsValue(digits)) <= MaxInt32
    ensures ParseInt32(Some(lead + (SignText(negative) + (digits + trail))))
            == Some(Signed(negative, DigitsValue(digits)))
  {
    var rest := digits + trail;
    var body := SignText(negative) + rest;
    calc {
      ParseInt32(Some(lead + body));
      ParseSigned(SkipNumberWhite(lead + body));
      { SkipNumberWhiteAll(lead, body); }
      ParseSigned(body);
      { ParseSignedOf(negative, rest); }
      ParseMagnitude(rest, negative);
      { ParseMagnitudeParts(digits, trail, negative); }
      Some(Signed(negative, DigitsValue(digits)));
    }
  }

  /** `s` has the shape `int.TryParse` accepts, split into its parts, and
      `value` is the number it denotes: white, a sign, digits, white, then
      only NUL characters. */
  predicate ParsedAs(s: string, value: int, lead: string, sign: string, digits: string, trail: string, nuls: string) {
    && s == lead + (sign + (digits + (trail + nuls)))
    && (forall i :: 0 <= i < |lead| ==> IsNumberWhite(lead[i]))
    && (sign == "" || sign == "+" || sign == "-")
    && |digits| > 0 && AllDigits(digits)
    && (forall i :: 0 <= i < |trail| ==> IsNumberWhite(trail[i]))
    && AllNul(nuls)
    && value == Signed(sign == "-", DigitsValue(digits))
  }

  /** Whatever `int.TryParse` reads has that shape and denotes the value
      returned: trailing text other than white and NULs, a missing digit or
      a stray sign makes it fail. */
  lemma ParseInt32Sound(s: string, v: Int32)
    requires ParseInt32(Some(s)) == Some(v)
    ensures exists lead, sign, digits, trail, nuls :: ParsedAs(s, v, lead, sign, digits, trail, nuls)
  {
    var w := NumberWhiteLength(s);
    var lead := s[..w];
    var a := s[w..];
    assert s == lead + a;
    assert SkipNumberWhite(s) == a;
    var sign, b := SignParts(a);
    var digits, trail, nuls := MagnitudeParts(b, sign == "-");
    assert v == Signed(sign == "-", DigitsValue(digits));
    var rest := sign + (digits + (trail + nuls));
    assert a == rest;
    assert s == lead + rest;
    assert ParsedAs(s, v, lead, sign, digits, trail, nuls);
  }

  /** The optional sign at the head of the text after the leading white. */
  lemma SignParts(a: string) returns (sign: string, b: string)
    ensures a == sign + b
    ensures sign == "" || sign == "+" || sign == "-"
    ensures ParseSigned(a) == ParseMagnitude(b, sign == "-")
  {
    if |a| > 0 && (a[0] == '-' || a[0] == '+') {
      sign, b := a[..1], a[1..];
    } else {
      sign, b := "", a;
    }
  }

  /** A magnitude that is read splits into digits, white and NULs. */
  lemma MagnitudeParts(b: string, negative: bool) returns (digits: string, trail: string, nuls: string)
    requires ParseMagnitude(b, negative).Some?
    ensures b == digits + (trail + nuls)
    ensures |digits| > 0 && AllDigits(digits)
    ensures forall i :: 0 <= i < |trail| ==> IsNumberWhite(trail[i])
    ensures AllNul(nuls)
    ensures ParseMagnitude(b, negative) == Some(Signed(negative, DigitsValue(digits)))
  {
    var n := DigitCount(b);
    digits := b[..n];
    var c := b[n..];
    var m := NumberWhiteLength(c);
    trail := c[..m];
    nuls := c[m..];
    assert c == trail + nuls;
    assert b == digits + c;
  }

  /** Conversely, every string of that shape whose value fits an `int` is
      read, trailing NULs included. */
  lemma ParseInt32Complete(s: string, v: int, lead: string, sign: string, digits: string, trail: string, nuls: string)
    requires ParsedAs(s, v, lead, sign, digits, trail, nuls)
    requires MinInt32 <= v <= MaxInt32
    ensures ParseInt32(Some(s)) == Some(v)
  {
    var b := digits + (trail + nuls);
    SkipNumberWhiteAll(lead, sign + b);
    SignedOfText(sign, b);
    MagnitudeOfParts(digits, trail, nuls, sign == "-");
  }

  /** A sign text is read off before the magnitude. */
  lemma SignedOfText(sign: string, b: string)
    requires sign == "" || sign == "+" || sign == "-"
    requires |b| > 0 && IsDigit(b[0])
    ensures ParseSigned(sign + b) == ParseMagnitude(b, sign == "-")
  {
    if sign == "" {
      assert sign + b == b;
    } else {
      DropHead(sign[0], b);
      assert sign + b == [sign[0]] + b;
    }
  }

  /** Digits, white and NULs are read as the digits' value. */
  lemma MagnitudeOfParts(digits: string, trail: string, nuls: string, negative: bool)
    requires |digits| > 0 && AllDigits(digits)
    requires forall i :: 0 <= i < |trail| ==> IsNumberWhite(trail[i])
    requires AllNul(nuls)
    requires MinInt32 <= Signed(negative, DigitsValue(digits)) <= MaxInt32
    ensures ParseMagnitude(digits + (trail + nuls), negative) == Some(Signed(negative, DigitsValue(digits)))
  {
    var t := trail + nuls;
    var b := digits + t;
    DigitCountPrefix(digits, t);
    assert b[..|digits|] == digits;
    assert b[|digits|..] == t;
    NumberWhitePrefix(trail, nuls);
    assert t[|trail|..] == nuls;
  }

  lemma Assoc3(a: string, b: string, c: string, d: string)
    ensures a + (b + c) + d == a + (b + (c + d))
  {
  }

  /** The sign is read off before the magnitude. */
  lemma ParseSignedOf(negative: bool, rest: string)
    requires |rest| > 0 && IsDigit(rest[0])
    ensures ParseSigned(SignText(negative) + rest) == ParseMagnitude(rest, negative)
  {
    if negative {
      ParseMinus(rest);
    } else {
      ParseUnsigned(rest);
    }
  }

  lemma ParseUnsigned(rest: string)
    requires |rest| > 0 && IsDigit(rest[0])
    ensures ParseSigned(SignText(false) + rest) == ParseMagnitude(rest, false)
  {
    assert SignText(false) + rest == rest;
    assert rest[0] != '-' && rest[0] != '+';
  }

  lemma ParseMinus(rest: string)
    requires |rest| > 0 && IsDigit(rest[0])
    ensures ParseSigned("-" + rest) == ParseMagnitude(rest, true)
  {
    DropHead('-', rest);
  }

  lemma DropHead<T>(x: T, a: seq<T>)
    ensures ([x] + a)[0] == x && ([x] + a)[1..] == a
  {
  }

  lemma ParseMagnitudeParts(digits: string, trail: string, negative: bool)
    requires |digits| > 0 && AllDigits(digits)
    requires forall i :: 0 <= i < |trail| ==> IsNumberWhite(trail[i])
    requires MinInt32 <= Signed(negative, DigitsValue(digits)) <= MaxInt32
    ensures ParseMagnitude(digits + trail, negative)
            == Some(Signed(negative, DigitsValue(digits)))
  {
    var b := digits + trail;
    DigitCountPrefix(digits, trail);
    assert b[..|digits|] == digits;
    assert b[|digits|..] == trail;
    NumberWhitePrefix(trail, []);
    assert trail + [] == trail;
    assert SkipNumberWhite(trail) == [];
  }

  /** Digits followed by a non-digit: exactly the digits are counted. */
  lemma {:induction false} DigitCountPrefix(d: string, t: string)
    requires AllDigits(d)
    requires t == [] || !IsDigit(t[0])
    ensures DigitCount(d + t) == |d|
    decreases |d|
  {
    if |d| > 0 {
      assert (d + t)[0] == d[0];
      assert (d + t)[1..] == d[1..] + t;
      DigitCountPrefix(d[1..], t);
    } else {
      assert d + t == t;
    }
  }
}
