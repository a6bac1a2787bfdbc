/**
 The query string of a request URL: `key=value` fields, each side
 percent-encoded with `Uri.EscapeDataString`, joined by `&`. The reading
 side (`ParseQuery`) is what a server does with the string; it is the
 inverse the encoding is proved against.
 */
module Query {
  import opened Wrappers
  import opened PercentEncoding

  /* ---------------- joining and splitting on one character ---------------- */

  /** `string.Join(sep, parts)`. */
  function Join(sep: char, parts: seq<string>): string
    decreases |parts|
  {
    if |parts| == 0 then []
    else if |parts| == 1 then parts[0]
    else parts[0] + [sep] + Join(sep, parts[1..])
  }

  /** The length of the text before the first `sep` (all of `s` when there
      is none). */
  function FieldLength(sep: char, s: string): (n: nat)
    ensures n <= |s|
    ensures forall i :: 0 <= i < n ==> s[i] != sep
    ensures n < |s| ==> s[n] == sep
    decreases |s|
  {
    if |s| == 0 || s[0] == sep then 0 else 1 + FieldLength(sep, s[1..])
  }

  /** `s.Split(sep)`: the pieces between the separators, at least one. */
  function Split(sep: char, s: string): (parts: seq<string>)
    ensures |parts| > 0
    decreases |s|
  {
    var n := FieldLength(sep, s);
    if n == |s| then [s] else [s[..n]] + Split(sep, s[n + 1..])
  }

  predicate Free(sep: char, s: string) {
    forall i :: 0 <= i < |s| ==> s[i] != sep
  }

  /** The length of a separator-free prefix is its own length. */
  lemma {:induction false} FieldLengthOf(sep: char, p: string, rest: string)
    requires Free(sep, p)
    requires rest == [] || rest[0] == sep
    ensures FieldLength(sep, p + rest) == |p|
    decreases |p|
  {
    if |p| == 0 {
      assert p + rest == rest;
    } else {
      assert (p + rest)[0] == p[0];
      assert (p + rest)[1..] == p[1..] + rest;
      FieldLengthOf(sep, p[1..], rest);
    }
  }

  /** Splitting undoes joining when no part holds the separator. */
  lemma {:induction false} SplitJoin(sep: char, parts: seq<string>)
    requires |parts| > 0
    requires forall k :: 0 <= k < |parts| ==> Free(sep, parts[k])
    ensures Split(sep, Join(sep, parts)) == parts
    decreases |parts|
  {
    var p := parts[0];
    if |parts| == 1 {
      FieldLengthOf(sep, p, []);
      assert p + [] == p;
    } else {
      var rest := Join(sep, parts[1..]);
      var s := p + [sep] + rest;
      assert s == p + ([sep] + rest);
      FieldLengthOf(sep, p, [sep] + rest);
      assert s[..|p|] == p;
      assert s[|p| + 1..] == rest;
      SplitJoin(sep, parts[1..]);
      assert [p] + parts[1..] == parts;
    }
  }

  /* ---------------- fields ---------------- */

  datatype Pair = Pair(key: string, value: string)

  /** `$"{Uri.EscapeDataString(key)}={Uri.EscapeDataString(value)}"`. */
  function Field(p: Pair): (f: string)
    ensures Free('&', f)
  {
    var k := EscapeDataString(p.key);
    var v := EscapeDataString(p.value);
    var f := k + "=" + v;
    forall i | 0 <= i < |f|
      ensures f[i] == '=' || IsEscapedChar(f[i]) || IsUpperHex(f[i])
    {
      if i < |k| {
        assert f[i] == k[i];
      } else if |k| < i {
        assert f[i] == v[i - |k| - 1];
      }
    }
    f
  }

  function Fields(ps: seq<Pair>): (fs: seq<string>)
    ensures |fs| == |ps|
    ensures forall k :: 0 <= k < |ps| ==> fs[k] == Field(ps[k])
  {
    seq(|ps|, k requires 0 <= k < |ps| => Field(ps[k]))
  }

  /** The query string for the pairs, in their order. */
  function QueryString(ps: seq<Pair>): string {
    Join('&', Fields(ps))
  }

  /* ---------------- reading a query string back ---------------- */

  /** One `key=value` field, unescaped; anything else is malformed. */
  function ParseField(f: string): Option<Pair> {
    var sides := Split('=', f);
    if |sides| != 2 then None
    else
      match (UnescapeDataString(sides[0]), UnescapeDataString(sides[1]))
      case (Some(k), Some(v)) => Some(Pair(k, v))
      case _ => None
  }

  function ParseFields(fs: seq<string>): (r: Option<seq<Pair>>)
    ensures r.Some? ==> |r.value| == |fs|
    decreases |fs|
  {
    if |fs| == 0 then Some([])
    else
      match (ParseField(fs[0]), ParseFields(fs[1..]))
      case (Some(p), Some(ps)) => Some([p] + ps)
      case _ => None
  }

  /** The pairs a query string stands for; the empty string has none. */
  function ParseQuery(q: string): Option<seq<Pair>> {
    if q == [] then Some([]) else ParseFields(Split('&', q))
  }

  /** An escaped string holds neither separator. */
  lemma EscapedIsFree(s: string)
    ensures Free('=', EscapeDataString(s)) && Free('&', EscapeDataString(s))
  {
  }

  lemma ParseFieldOf(p: Pair)
    ensures ParseField(Field(p)) == Some(p)
  {
    var k := EscapeDataString(p.key);
    var v := EscapeDataString(p.value);
    EscapedIsFree(p.key);
    EscapedIsFree(p.value);
    assert Join('=', [k, v]) == Field(p) by {
      assert [k, v][1..] == [v];
    }
    SplitJoin('=', [k, v]);
    EscapeRoundTrip(p.key);
    EscapeRoundTrip(p.value);
  }

  lemma {:induction false} ParseFieldsOf(ps: seq<Pair>)
    ensures ParseFields(Fields(ps)) == Some(ps)
    decreases |ps|
  {
    if |ps| > 0 {
      var fs := Fields(ps);
      assert fs[1..] == Fields(ps[1..]);
      ParseFieldOf(ps[0]);
      ParseFieldsOf(ps[1..]);
      assert [ps[0]] + ps[1..] == ps;
    }
  }

  /** Reading the query string back gives the same pairs, in the same
      order: the encoding is lossless whatever the keys and values hold. */
  lemma QueryRoundTrip(ps: seq<Pair>)
    ensures ParseQuery(QueryString(ps)) == Some(ps)
  {
    var fs := Fields(ps);
    if |ps| == 0 {
    } else {
      assert |Field(ps[0])| > 0 by {
        assert Field(ps[0])[|EscapeDataString(ps[0].key)|] == '=';
      }
      assert QueryString(ps) != [] by {
        JoinNonEmpty('&', fs);
      }
      SplitJoin('&', fs);
      ParseFieldsOf(ps);
    }
  }

  lemma JoinNonEmpty(sep: char, parts: seq<string>)
    requires |parts| > 0 && |parts[0]| > 0
    ensures |Join(sep, parts)| > 0
  {
  }
}
