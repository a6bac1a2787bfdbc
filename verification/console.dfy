/**
 The three formatting helpers of the console front end: reading a positive
 count typed by the user, shortening text for a table cell, and the symbol
 printed after a temperature.
 */
module ConsoleFormat {
  import opened Wrappers
  import opened Text
  import opened Numbers
  import opened Utf16
  import Weather

  /* ---------------- TryParsePositiveInt ---------------- */

  /** `TryParsePositiveInt`: the number typed, when `int.TryParse` reads one
      and it is above zero; the default otherwise. */
  function TryParsePositiveInt(input: Option<string>, default: Int32): (r: Int32)
    ensures ParseInt32(input).Some? && ParseInt32(input).value > 0 ==> r == ParseInt32(input).value
    ensures !(ParseInt32(input).Some? && ParseInt32(input).value > 0) ==> r == default
    ensures default > 0 ==> r > 0
  {
    match ParseInt32(input)
    case Some(value) => if value > 0 then value else default
    case None => default
  }

  /** A positive number printed in decimal, with any white space around it,
      is read back; zero and negative numbers give the default. */
  lemma TryParsePositiveIntOfDecimal(n: Int32, lead: string, trail: string, default: Int32)
    requires forall i :: 0 <= i < |lead| ==> IsNumberWhite(lead[i])
    requires forall i :: 0 <= i < |trail| ==> IsNumberWhite(trail[i])
    ensures TryParsePositiveInt(Some(lead + IntToDecimal(n) + trail), default) == if n > 0 then n else default
  {
    ParseInt32OfDecimal(n, lead, trail);
  }

  /* ---------------- Truncate ---------------- */

  /** `"..."` as code units. */
  const Ellipsis: seq<CodeUnit> := [0x2E, 0x2E, 0x2E]

  /** `Truncate`: "" for a null or blank value; the value itself when it
      fits in `maxLength` code units; otherwise its first `maxLength` code
      units followed by `...`. Lengths and the cut are in UTF-16 code units,
      as `string.Length` and `value[..maxLength]` count them. */
  function Truncate(value: Option<seq<CodeUnit>>, maxLength: int): (r: seq<CodeUnit>)
    requires maxLength >= 0
    ensures IsNullOrBlankUnits(value) ==> r == []
    ensures !IsNullOrBlankUnits(value) && |value.value| <= maxLength ==> r == value.value
    ensures !IsNullOrBlankUnits(value) && |value.value| > maxLength ==>
              |r| == maxLength + 3 && r[..maxLength] == value.value[..maxLength] && r[maxLength..] == Ellipsis
  {
    if IsNullOrBlankUnits(value) then []
    else if |value.value| <= maxLength then value.value
    else value.value[..maxLength] + Ellipsis
  }

  /** The result never exceeds `maxLength + 3` code units, and it is empty
      exactly for a null or blank value. */
  lemma TruncateBound(value: Option<seq<CodeUnit>>, maxLength: int)
    requires maxLength >= 0
    ensures |Truncate(value, maxLength)| <= maxLength + 3
    ensures Truncate(value, maxLength) == [] <==> IsNullOrBlankUnits(value)
  {
    var r := Truncate(value, maxLength);
    if !IsNullOrBlankUnits(value) {
      if |value.value| > maxLength {
        assert r[maxLength] == 0x2E;
      } else {
        assert r == value.value;
      }
    }
  }

  /** A truncated text fits a cell of `maxLength + 3` code units: shortening
      it again with that width leaves it as it is. */
  lemma TruncateFits(value: Option<seq<CodeUnit>>, maxLength: int)
    requires maxLength >= 0
    ensures Truncate(Some(Truncate(value, maxLength)), maxLength + 3) == Truncate(value, maxLength)
  {
    var r := Truncate(value, maxLength);
    TruncateBound(value, maxLength);
    if !IsNullOrBlankUnits(value) && |value.value| > maxLength {
      assert r[maxLength] == 0x2E;
      assert !IsWhiteSpaceUnit(r[maxLength]);
      assert !IsBlankUnits(r);
    }
  }

  /** For a text held in a .NET string, the cell is empty exactly when the
      text is blank. */
  lemma TruncateBlankText(s: string, maxLength: int)
    requires maxLength >= 0
    ensures Truncate(Some(Encode(s)), maxLength) == [] <==> IsBlank(s)
  {
    BlankOfEncode(s);
    TruncateBound(Some(Encode(s)), maxLength);
  }

  /** A non-blank text whose characters all lie below U+10000 takes one
      code unit per character: it is kept whole when it has at most
      `maxLength` characters, and otherwise becomes its first `maxLength`
      characters followed by `...`. */
  lemma TruncateBasicText(s: string, maxLength: int)
    requires maxLength >= 0
    requires forall i :: 0 <= i < |s| ==> s[i] as int < 0x1_0000
    requires !IsBlank(s)
    ensures |s| <= maxLength ==> Truncate(Some(Encode(s)), maxLength) == Encode(s)
    ensures |s| > maxLength ==> Truncate(Some(Encode(s)), maxLength) == Encode(s[..maxLength]) + Ellipsis
  {
    var e := Encode(s);
    BlankOfEncode(s);
    assert !IsBlankUnits(e);
    EncodeBasic(s);
    if |s| > maxLength {
      var r := Truncate(Some(e), maxLength);
      EncodeBasicPrefix(s, maxLength);
      assert r == r[..maxLength] + r[maxLength..];
    }
  }

  /** Characters above U+FFFF count twice: a text of `n` such characters is
      cut once `maxLength` is below `2 * n`, even when `n <= maxLength`. */
  lemma TruncateCountsCodeUnits(s: string, maxLength: int)
    requires maxLength >= 0
    requires forall i :: 0 <= i < |s| ==> s[i] as int >= 0x1_0000
    requires maxLength < 2 * |s|
    ensures |Truncate(Some(Encode(s)), maxLength)| == maxLength + 3
    ensures Truncate(Some(Encode(s)), maxLength) != Encode(s)
  {
    var e := Encode(s);
    EncodeAstral(s);
    CutSurrogates(e, maxLength);
  }

  /** With such a text and an odd `maxLength = 2 * j + 1`, the cut falls
      inside the pair of character `j`: its high surrogate is kept alone
      just before the `...`. */
  lemma TruncateSplitsPair(s: string, j: nat)
    requires forall i :: 0 <= i < |s| ==> s[i] as int >= 0x1_0000
    requires j < |s|
    ensures |Truncate(Some(Encode(s)), 2 * j + 1)| == 2 * j + 4
    ensures IsHighSurrogate(Truncate(Some(Encode(s)), 2 * j + 1)[2 * j])
    ensures Truncate(Some(Encode(s)), 2 * j + 1)[2 * j + 1..] == Ellipsis
  {
    var e := Encode(s);
    EncodeAstral(s);
    AstralHighAt(s, j);
    CutSurrogates(e, 2 * j + 1);
    var r := Truncate(Some(e), 2 * j + 1);
    assert r[2 * j] == r[..2 * j + 1][2 * j];
  }

  /** A string of surrogates longer than `maxLength` is cut, and the cut
      keeps its first `maxLength` code units. */
  lemma CutSurrogates(e: seq<CodeUnit>, maxLength: int)
    requires 0 <= maxLength < |e|
    requires forall k :: 0 <= k < |e| ==> IsSurrogate(e[k])
    ensures |Truncate(Some(e), maxLength)| == maxLength + 3
    ensures Truncate(Some(e), maxLength)[..maxLength] == e[..maxLength]
    ensures Truncate(Some(e), maxLength) != e
  {
    assert !IsWhiteSpaceUnit(e[0]);
    var r := Truncate(Some(e), maxLength);
    assert r[maxLength] == 0x2E;
    assert IsSurrogate(e[maxLength]);
  }

  /* ---------------- GetTemperatureUnitSymbol ---------------- */

  const Celsius: string := "°C"
  const Fahrenheit: string := "°F"
  const Kelvin: string := "K"

  /** `GetTemperatureUnitSymbol`: Celsius for metric units, Fahrenheit for
      imperial ones, Kelvin for everything else, `standard` included; the
      units are compared trimmed and in lower case. */
  function GetTemperatureUnitSymbol(units: string): (r: string)
    ensures r == Celsius <==> Lower(Trim(units)) == "metric"
    ensures r == Fahrenheit <==> Lower(Trim(units)) == "imperial"
    ensures r == Kelvin <==> Lower(Trim(units)) != "metric" && Lower(Trim(units)) != "imperial"
  {
    assert Celsius[1] == 'C' && Fahrenheit[1] == 'F' && |Kelvin| == 1;
    match Lower(Trim(units))
    case "metric" => Celsius
    case "imperial" => Fahrenheit
    case _ => Kelvin
  }

  /** Case and surrounding white space do not change the symbol. */
  lemma UnitSymbolSpellings(v: string, pre: string, post: string)
    requires IsBlank(pre) && IsBlank(post)
    requires Lower(v) in Weather.UnitNames
    ensures GetTemperatureUnitSymbol(pre + v + post) == GetTemperatureUnitSymbol(Lower(v))
    ensures GetTemperatureUnitSymbol(Lower(v)) == if Lower(v) == "metric" then Celsius
                                                 else if Lower(v) == "imperial" then Fahrenheit
                                                 else Kelvin
  {
    var c := Lower(v);
    assert c[0] in "mis" && c[|c| - 1] in "cld";
    Weather.LowerTrimmed(v);
    TrimAround(pre, v, post);
    LowerIdempotent(v);
    TrimOfTrimmed(c);
  }

  /** The symbol shown for the units a record stores agrees with the units
      the user asked for: the normalised units of a recognised spelling
      print like the spelling itself, and anything unrecognised prints like
      the fallback. */
  lemma UnitSymbolOfNormalized(units: Option<string>, fallback: string)
    ensures var n := Weather.NormalizeUnits(units, fallback);
      GetTemperatureUnitSymbol(n) ==
        if !IsNullOrBlank(units) && Lower(Trim(units.value)) in Weather.UnitNames
        then GetTemperatureUnitSymbol(units.value)
        else GetTemperatureUnitSymbol(fallback)
  {
    if !IsNullOrBlank(units) && Lower(Trim(units.value)) in Weather.UnitNames {
      var t := Trim(units.value);
      var c := Lower(t);
      TrimSpec(units.value);
      LowerKeepsWhiteSpace(t);
      TrimOfTrimmed(c);
      LowerIdempotent(t);
    }
  }
}
