/**
 Character classes and string helpers shared by both pipelines: .NET's
 whitespace class (used by `string.Trim`, `string.IsNullOrWhiteSpace` and the
 regular-expression class `\s`), trimming, collapsing of whitespace runs,
 ASCII case folding, and the scraper's `CleanText`.
 */
module Text {
  import opened Wrappers

  /** `char.IsWhiteSpace`: the Unicode categories Zs, Zl and Zp plus the
      controls U+0009..U+000D and U+0085. The regular-expression class `\s`
      denotes the same set. */
  predicate IsWhiteSpace(c: char) {
    c in WhiteSpaceChars
  }

  const WhiteSpaceChars: set<char> := {
    '\t', '\n', '\U{000B}', '\U{000C}', '\r', ' ', '\U{0085}', '\U{00A0}', '\U{1680}',
    '\U{2000}', '\U{2001}', '\U{2002}', '\U{2003}', '\U{2004}', '\U{2005}',
    '\U{2006}', '\U{2007}', '\U{2008}', '\U{2009}', '\U{200A}',
    '\U{2028}', '\U{2029}', '\U{202F}', '\U{205F}', '\U{3000}'
  }

  /** `string.IsNullOrWhiteSpace` for a non-null string. */
  predicate IsBlank(s: string) {
    forall i :: 0 <= i < |s| ==> IsWhiteSpace(s[i])
  }

  /** `string.IsNullOrWhiteSpace` for a possibly-null string. */
  predicate IsNullOrBlank(s: Option<string>) {
    s.None? || IsBlank(s.value)
  }

  /** The number of whitespace characters `s` starts with. */
  function LeadingWhiteSpace(s: string): (n: nat)
    ensures n <= |s|
    ensures forall i :: 0 <= i < n ==> IsWhiteSpace(s[i])
    ensures n < |s| ==> !IsWhiteSpace(s[n])
    decreases |s|
  {
    if |s| > 0 && IsWhiteSpace(s[0]) then 1 + LeadingWhiteSpace(s[1..]) else 0
  }

  /** The length of `s` without the whitespace it ends with. */
  function TextEnd(s: string): (n: nat)
    ensures n <= |s|
    ensures forall i :: n <= i < |s| ==> IsWhiteSpace(s[i])
    ensures n > 0 ==> !IsWhiteSpace(s[n - 1])
    decreases |s|
  {
    if |s| > 0 && IsWhiteSpace(s[|s| - 1]) then TextEnd(s[..|s| - 1]) else |s|
  }

  /** `string.TrimStart()`: the longest suffix that does not start with whitespace. */
  function TrimStart(s: string): (r: string)
  {
    s[LeadingWhiteSpace(s)..]
  }

  /** `string.TrimEnd()`: the longest prefix that does not end with whitespace. */
  function TrimEnd(s: string): (r: string)
  {
    s[..TextEnd(s)]
  }

  /** `string.Trim()`: never longer than the input, and with no whitespace
      left at either end. */
  function Trim(s: string): (r: string)
    ensures |r| <= |s|
    ensures IsTrimmed(r)
  {
    var t := TrimStart(s);
    var r := TrimEnd(t);
    assert r != [] ==> r[0] == t[0];
    r
  }

  /** No whitespace at either end. */
  predicate IsTrimmed(s: string) {
    s == [] || (!IsWhiteSpace(s[0]) && !IsWhiteSpace(s[|s| - 1]))
  }

  /** Trimming removes exactly the whitespace at both ends: the result is a
      contiguous slice of the input with no whitespace at either end, and
      everything outside the slice is whitespace. */
  lemma TrimSpec(s: string)
    ensures IsTrimmed(Trim(s))
    ensures exists i, j :: 0 <= i <= j <= |s| && Trim(s) == s[i..j]
                            && IsBlank(s[..i]) && IsBlank(s[j..])
  {
    var t := TrimStart(s);
    var r := TrimEnd(t);
    var i := |s| - |t|;
    var j := i + |r|;
    assert r == s[i..j];
    assert IsBlank(s[..i]);
    assert forall k :: j <= k < |s| ==> s[k] == t[k - i];
    assert IsBlank(s[j..]);
    if r != [] {
      assert r[0] == t[0];
    }
  }

  /** `s?.Trim() ?? string.Empty`: the trimmed string, or "" for null. */
  function TrimOrEmpty(s: Option<string>): (r: string)
    ensures IsTrimmed(r)
    ensures s.Some? ==> r == Trim(s.value)
    ensures s.None? ==> r == []
  {
    match s
    case None => []
    case Some(v) => TrimSpec(v); Trim(v)
  }

  /** A trimmed string is its own trim. */
  lemma TrimOfTrimmed(s: string)
    requires IsTrimmed(s)
    ensures Trim(s) == s
  {
  }

  /** A string is blank exactly when trimming leaves nothing. */
  lemma BlankIffTrimEmpty(s: string)
    ensures IsBlank(s) <==> Trim(s) == []
  {
    var t := TrimStart(s);
    if t != [] {
      assert !IsWhiteSpace(t[0]);
      assert !IsWhiteSpace(s[|s| - |t|]);
    }
  }

  /** Trimming is idempotent. */
  lemma TrimIdempotent(s: string)
    ensures Trim(Trim(s)) == Trim(s)
  {
    TrimSpec(s);
    TrimOfTrimmed(Trim(s));
  }

  lemma {:induction false} LeadingWhiteSpaceBlank(w: string, x: string)
    requires IsBlank(w)
    ensures LeadingWhiteSpace(w + x) == |w| + LeadingWhiteSpace(x)
    decreases |w|
  {
    if |w| == 0 {
      assert w + x == x;
    } else {
      assert (w + x)[0] == w[0];
      assert (w + x)[1..] == w[1..] + x;
      LeadingWhiteSpaceBlank(w[1..], x);
    }
  }

  lemma {:induction false} TextEndBlank(x: string, w: string)
    requires IsBlank(w)
    ensures TextEnd(x + w) == TextEnd(x)
    decreases |w|
  {
    if |w| == 0 {
      assert x + w == x;
    } else {
      var s := x + w;
      assert s[|s| - 1] == w[|w| - 1];
      assert s[..|s| - 1] == x + w[..|w| - 1];
      TextEndBlank(x, w[..|w| - 1]);
    }
  }

  /** Whitespace around a trimmed string is exactly what trimming removes. */
  lemma TrimAround(pre: string, v: string, post: string)
    requires IsBlank(pre) && IsBlank(post) && IsTrimmed(v)
    ensures Trim(pre + v + post) == v
  {
    var s := pre + v + post;
    assert s == pre + (v + post);
    LeadingWhiteSpaceBlank(pre, v + post);
    if v == [] {
      assert v + post == post + [];
      LeadingWhiteSpaceBlank(post, []);
    } else {
      assert (v + post)[0] == v[0];
      assert TrimStart(s) == v + post;
      TextEndBlank(v, post);
      assert (v + post)[..|v|] == v;
    }
  }

  /* ---------------- ASCII case folding ---------------- */

  /** `char.ToLowerInvariant`, restricted to the ASCII letters. */
  function LowerChar(c: char): (r: char)
  {
    if 'A' <= c <= 'Z' then (c as int + 32) as char else c
  }

  /** `string.ToLowerInvariant()` over the ASCII letters. */
  function Lower(s: string): (r: string)
    ensures |r| == |s|
    ensures forall i :: 0 <= i < |s| ==> r[i] == LowerChar(s[i])
  {
    seq(|s|, i requires 0 <= i < |s| => LowerChar(s[i]))
  }

  /** The key `StringComparer.OrdinalIgnoreCase` compares by. */
  function FoldKey(s: string): (r: string)
  {
    Lower(s)
  }

  /** Case-insensitive ordinal equality. */
  predicate EqualsIgnoreCase(a: string, b: string) {
    FoldKey(a) == FoldKey(b)
  }

  /** Lower-casing never touches whitespace, so it keeps a string trimmed and
      leaves its blankness alone. */
  lemma LowerKeepsWhiteSpace(s: string)
    ensures IsBlank(Lower(s)) <==> IsBlank(s)
    ensures IsTrimmed(s) ==> IsTrimmed(Lower(s))
  {
    var l := Lower(s);
    forall i | 0 <= i < |s| ensures IsWhiteSpace(l[i]) <==> IsWhiteSpace(s[i]) {
      LowerCharWhiteSpace(s[i]);
    }
  }

  lemma LowerCharWhiteSpace(c: char)
    ensures IsWhiteSpace(LowerChar(c)) <==> IsWhiteSpace(c)
  {
  }

  /** Lower-casing is idempotent. */
  lemma LowerIdempotent(s: string)
    ensures Lower(Lower(s)) == Lower(s)
  {
  }

  /* ---------------- whitespace collapsing ---------------- */

  /** `Regex.Replace(s, "\\s+", " ")`: every maximal run of whitespace
      becomes one space; the runs between them are copied unchanged. */
  function Collapse(s: string): (r: string)
    ensures |r| <= |s|
    ensures r == [] <==> s == []
    decreases |s|
  {
    if |s| == 0 then []
    else if IsWhiteSpace(s[0]) then " " + Collapse(TrimStart(s))
    else
      var w := TakeWord(s);
      w + Collapse(s[|w|..])
  }

  /** The longest prefix free of whitespace. */
  function TakeWord(s: string): (r: string)
  {
    s[..WordLength(s)]
  }

  /** The number of non-whitespace characters `s` starts with. */
  function WordLength(s: string): (n: nat)
    ensures n <= |s|
    ensures forall i :: 0 <= i < n ==> !IsWhiteSpace(s[i])
    ensures n < |s| ==> IsWhiteSpace(s[n])
    decreases |s|
  {
    if |s| == 0 || IsWhiteSpace(s[0]) then 0 else 1 + WordLength(s[1..])
  }

  /** The whitespace-separated words of `s`, in order: an independent
      description of what collapsing and trimming keep. */
  function Words(s: string): (ws: seq<string>)
    decreases |s|
  {
    var t := TrimStart(s);
    if |t| == 0 then []
    else
      var w := TakeWord(t);
      [w] + Words(t[|w|..])
  }

  /** The words joined by single spaces. */
  function JoinWords(ws: seq<string>): string
  {
    if |ws| == 0 then []
    else if |ws| == 1 then ws[0]
    else ws[0] + " " + JoinWords(ws[1..])
  }

  /** A non-empty word with no whitespace inside. */
  predicate IsWord(w: string) {
    |w| > 0 && forall i :: 0 <= i < |w| ==> !IsWhiteSpace(w[i])
  }

  lemma {:induction false} WordsAreWords(s: string)
    ensures forall k :: 0 <= k < |Words(s)| ==> IsWord(Words(s)[k])
    decreases |s|
  {
    var t := TrimStart(s);
    if |t| > 0 {
      var w := TakeWord(t);
      WordsAreWords(t[|w|..]);
    }
  }

  /** Text in normal form: trimmed, and its only whitespace characters are
      single spaces between non-whitespace characters. */
  ghost predicate IsNormalized(s: string) {
    && IsTrimmed(s)
    && (forall i :: 0 <= i < |s| && IsWhiteSpace(s[i]) ==> s[i] == ' ')
    && (forall i, j :: 0 <= i < j < |s| && j == i + 1 ==> !(s[i] == ' ' && s[j] == ' '))
  }

  lemma {:induction false} JoinWordsNormalized(ws: seq<string>)
    requires forall k :: 0 <= k < |ws| ==> IsWord(ws[k])
    ensures IsNormalized(JoinWords(ws))
    ensures |ws| > 0 ==> |JoinWords(ws)| > 0
  {
    if |ws| > 1 {
      JoinWordsNormalized(ws[1..]);
      var rest := JoinWords(ws[1..]);
      var r := ws[0] + " " + rest;
      assert r == JoinWords(ws);
      forall i | 0 <= i < |r| && IsWhiteSpace(r[i])
        ensures r[i] == ' '
      {
        if i > |ws[0]| {
          assert r[i] == rest[i - |ws[0]| - 1];
        }
      }
      forall i, j | 0 <= i < j < |r| && j == i + 1
        ensures !(r[i] == ' ' && r[j] == ' ')
      {
        if i > |ws[0]| {
          assert r[i] == rest[i - |ws[0]| - 1];
          assert r[j] == rest[i - |ws[0]|];
        }
      }
    }
  }

  /** A string with no leading whitespace splits into its first word and
      the words of what follows. */
  lemma WordsOfUntrimmedStart(s: string)
    requires |s| > 0 && !IsWhiteSpace(s[0])
    ensures Words(s) == [TakeWord(s)] + Words(s[|TakeWord(s)|..])
  {
    assert TrimStart(s) == s;
  }

  /** Leading whitespace does not change the words. */
  lemma WordsOfTrimStart(s: string)
    ensures Words(s) == Words(TrimStart(s))
  {
    var t := TrimStart(s);
    assert TrimStart(t) == t;
  }

  /** Joining one more word in front adds the word and one space. */
  lemma JoinWordsCons(w: string, ws: seq<string>)
    requires |ws| > 0
    ensures JoinWords([w] + ws) == w + " " + JoinWords(ws)
  {
    assert ([w] + ws)[1..] == ws;
  }

  /** For a string that starts with a non-whitespace character, collapsing
      yields its words joined by single spaces, plus one space when the
      string ends in whitespace. */
  lemma {:induction false} CollapseOfUntrimmedEnd(s: string)
    requires |s| > 0 && !IsWhiteSpace(s[0])
    ensures Collapse(s) == JoinWords(Words(s)) + (if IsWhiteSpace(s[|s| - 1]) then " " else "")
    decreases |s|
  {
    var w := TakeWord(s);
    var rest := s[|w|..];
    var post: string := if IsWhiteSpace(s[|s| - 1]) then " " else "";
    assert Collapse(s) == w + Collapse(rest);
    assert Words(s) == [w] + Words(rest) by {
      WordsOfUntrimmedStart(s);
    }
    if |rest| == 0 {
      assert Words(s) == [w];
      assert s[|s| - 1] == w[|w| - 1];
      AppendEmpty(w, Collapse(rest));
    } else {
      var t := TrimStart(rest);
      assert Collapse(rest) == " " + Collapse(t);
      assert Words(rest) == Words(t) by {
        WordsOfTrimStart(rest);
      }
      assert s[|s| - 1] == rest[|rest| - 1];
      if |t| == 0 {
        assert Words(s) == [w];
        assert IsWhiteSpace(rest[|rest| - 1]);
        AppendEmpty(" ", Collapse(t));
      } else {
        assert rest[|rest| - 1] == t[|t| - 1];
        assert Collapse(t) == JoinWords(Words(t)) + post by {
          CollapseOfUntrimmedEnd(t);
        }
        WordsNonEmpty(t);
        assert JoinWords(Words(s)) == w + " " + JoinWords(Words(t)) by {
          JoinWordsCons(w, Words(t));
        }
        AppendAssoc4(w, " ", JoinWords(Words(t)), post);
      }
    }
  }

  lemma Assoc<T>(a: seq<T>, b: seq<T>, c: seq<T>)
    ensures a + (b + c) == a + b + c
  {
  }

  lemma ConsTail<T>(xs: seq<T>)
    requires |xs| > 0
    ensures [xs[0]] + xs[1..] == xs
  {
  }

  lemma AppendEmpty(a: string, b: string)
    requires b == []
    ensures a + b == a
  {
  }

  lemma AppendAssoc4(a: string, b: string, c: string, d: string)
    ensures a + (b + (c + d)) == a + b + c + d
  {
  }

  /** A string with a non-whitespace character has at least one word. */
  lemma WordsNonEmpty(s: string)
    requires |s| > 0 && !IsWhiteSpace(s[0])
    ensures |Words(s)| > 0
  {
    assert TrimStart(s) == s;
  }

  /** Trimming a string made of an optional space, a normalized string and
      an optional space gives the normalized string back. */
  lemma TrimAroundNormalized(x: string, pre: string, post: string)
    requires IsTrimmed(x) && x != []
    requires pre == [] || pre == " "
    requires post == [] || post == " "
    ensures Trim(pre + x + post) == x
  {
    var s := pre + x + post;
    var t := TrimStart(s);
    assert t == x + post by {
      if pre == " " {
        assert s[1..] == x + post;
        assert TrimStart(s) == TrimStart(s[1..]);
      }
    }
    if post == " " {
      assert t[..|t| - 1] == x;
      assert TrimEnd(t) == TrimEnd(x);
    }
  }

  /** Collapsing keeps at most one space for the leading run. */
  lemma CollapseLeading(s: string)
    ensures Collapse(s) == (if |s| > 0 && IsWhiteSpace(s[0]) then " " else "") + Collapse(TrimStart(s))
  {
    if |s| > 0 && IsWhiteSpace(s[0]) {
    } else {
      assert TrimStart(s) == s;
      assert "" + Collapse(s) == Collapse(s);
    }
  }

  /** Trimming the collapsed string gives its words joined by single spaces. */
  lemma TrimCollapseIsJoinWords(s: string)
    ensures Trim(Collapse(s)) == JoinWords(Words(s))
  {
    var t := TrimStart(s);
    WordsOfTrimStart(s);
    CollapseLeading(s);
    if |t| == 0 {
      TrimCollapseBlank(s);
    } else {
      TrimCollapseNonBlank(s);
    }
  }

  lemma TrimCollapseBlank(s: string)
    requires TrimStart(s) == []
    requires Collapse(s) == (if |s| > 0 && IsWhiteSpace(s[0]) then " " else "") + Collapse(TrimStart(s))
    requires Words(s) == Words(TrimStart(s))
    ensures Trim(Collapse(s)) == JoinWords(Words(s))
  {
    var pre: string := if |s| > 0 && IsWhiteSpace(s[0]) then " " else "";
    assert Collapse([]) == [];
    AppendEmpty(pre, Collapse([]));
    assert Trim(pre) == [];
    assert Words([]) == [];
  }

  lemma TrimCollapseNonBlank(s: string)
    requires TrimStart(s) != []
    requires Collapse(s) == (if |s| > 0 && IsWhiteSpace(s[0]) then " " else "") + Collapse(TrimStart(s))
    requires Words(s) == Words(TrimStart(s))
    ensures Trim(Collapse(s)) == JoinWords(Words(s))
  {
    var t := TrimStart(s);
    var pre: string := if |s| > 0 && IsWhiteSpace(s[0]) then " " else "";
    var j := JoinWords(Words(s));
    WordsAreWords(s);
    JoinWordsNormalized(Words(s));
    CollapseOfUntrimmedEnd(t);
    var post: string := if IsWhiteSpace(t[|t| - 1]) then " " else "";
    assert Collapse(s) == pre + (j + post);
    Assoc(pre, j, post);
    TrimAroundNormalized(j, pre, post);
  }

  /* ---------------- CleanText ---------------- */

  /** The scraper's `CleanText`: "" for a missing or blank value; otherwise
      the entity-decoded text with whitespace runs collapsed to single
      spaces and both ends trimmed. Entity decoding belongs to the HTML
      library and is passed in as `deEntitize`. */
  function CleanText(value: Option<string>, deEntitize: string -> string): (r: string)
    ensures IsNullOrBlank(value) ==> r == []
    ensures value.Some? && !IsNullOrBlank(value) ==> r == JoinWords(Words(deEntitize(value.value)))
    ensures IsNormalized(r)
  {
    if IsNullOrBlank(value) then []
    else
      var decoded := deEntitize(value.value);
      TrimCollapseIsJoinWords(decoded);
      WordsAreWords(decoded);
      JoinWordsNormalized(Words(decoded));
      Trim(Collapse(decoded))
  }

  /** Cleaning yields an empty string exactly when the value is missing or
      blank, or when decoding leaves only whitespace. */
  lemma CleanTextEmptyIff(value: Option<string>, deEntitize: string -> string)
    ensures CleanText(value, deEntitize) == [] <==>
              (IsNullOrBlank(value) || IsBlank(deEntitize(value.value)))
  {
    if !IsNullOrBlank(value) {
      var d := deEntitize(value.value);
      TrimCollapseIsJoinWords(d);
      WordsEmptyIffBlank(d);
      WordsAreWords(d);
      JoinWordsNormalized(Words(d));
    }
  }

  lemma {:induction false} WordsEmptyIffBlank(s: string)
    ensures Words(s) == [] <==> IsBlank(s)
  {
    var t := TrimStart(s);
    if |t| == 0 {
      assert forall i :: 0 <= i < |s| ==> IsWhiteSpace(s[i]);
    } else {
      assert !IsWhiteSpace(s[|s| - |t|]);
    }
  }

  /** A word followed by nothing or by whitespace is taken whole. */
  lemma {:induction false} TakeWordOfWord(w: string, x: string)
    requires IsWord(w)
    requires x == [] || IsWhiteSpace(x[0])
    ensures TakeWord(w + x) == w
    decreases |w|
  {
    var s := w + x;
    assert s[0] == w[0];
    if |w| == 1 {
      assert s[1..] == x;
    } else {
      assert s[1..] == w[1..] + x;
      TakeWordOfWord(w[1..], x);
      assert [w[0]] + w[1..] == w;
    }
  }

  /** Splitting into words undoes joining words: `Words` is a left inverse
      of `JoinWords`. */
  lemma {:induction false} WordsOfJoinWords(ws: seq<string>)
    requires forall k :: 0 <= k < |ws| ==> IsWord(ws[k])
    ensures Words(JoinWords(ws)) == ws
  {
    if |ws| == 1 {
      var w := ws[0];
      TakeWordOfWord(w, []);
      assert w + [] == w;
      assert w[|w|..] == [];
      WordsOfUntrimmedStart(w);
    } else if |ws| > 1 {
      var w := ws[0];
      var rest := JoinWords(ws[1..]);
      JoinWordsNormalized(ws[1..]);
      var s := w + (" " + rest);
      assert s == JoinWords(ws);
      TakeWordOfWord(w, " " + rest);
      assert s[|w|..] == " " + rest;
      WordsOfUntrimmedStart(s);
      assert TrimStart(" " + rest) == rest by {
        assert (" " + rest)[1..] == rest;
      }
      WordsOfTrimStart(" " + rest);
      WordsOfJoinWords(ws[1..]);
      ConsTail(ws);
    }
  }

  /** A decoder that leaves text alone (for text without entities). */
  function NoEntities(x: string): string { x }

  /** Without entities to decode, cleaning is idempotent. */
  lemma CleanTextIdempotent(s: string)
    ensures CleanText(Some(CleanText(Some(s), NoEntities)), NoEntities) == CleanText(Some(s), NoEntities)
  {
    if IsBlank(s) {
      assert CleanText(Some(s), NoEntities) == [];
    } else {
      CleanNonBlankIdempotent(s);
    }
  }

  lemma CleanNonBlankIdempotent(s: string)
    requires !IsBlank(s)
    ensures CleanText(Some(CleanText(Some(s), NoEntities)), NoEntities) == CleanText(Some(s), NoEntities)
  {
    var c := JoinWords(Words(s));
    JoinedWordsNonBlank(s);
    JoinedWordsAreFixed(s);
    assert CleanText(Some(s), NoEntities) == c;
    assert CleanText(Some(c), NoEntities) == JoinWords(Words(c));
  }

  /** The words of a non-blank string join to a non-blank string. */
  lemma JoinedWordsNonBlank(s: string)
    requires !IsBlank(s)
    ensures !IsBlank(JoinWords(Words(s)))
  {
    var c := JoinWords(Words(s));
    WordsEmptyIffBlank(s);
    WordsAreWords(s);
    JoinWordsNormalized(Words(s));
    assert !IsWhiteSpace(c[0]);
  }

  /** Words joined by single spaces split back into the same words. */
  lemma JoinedWordsAreFixed(s: string)
    ensures Words(JoinWords(Words(s))) == Words(s)
  {
    WordsAreWords(s);
    WordsOfJoinWords(Words(s));
  }
}
