/**
 Link extraction from a parsed HTML page (`ScrapingService.ExtractLinks`).

 The HTML library, the URI library and HTML entity decoding are outside the
 model: a page arrives as the sequence of its `<a href>` anchors in document
 order, URI resolution is a partial function passed in, and so is entity
 decoding.
 */
module Links {
  import opened Wrappers
  import opened Text

  /** The canonical text of an absolute URI (`Uri.ToString()`), never empty:
      it starts with the scheme. */
  type UriText = s: string | |s| > 0 witness "x:"

  /** An absolute URI as the model needs it: its scheme and its text. */
  datatype Uri = Uri(scheme: string, text: UriText)

  /** `Uri.TryCreate(baseUri, relative, out absolute)`. */
  type Resolver = (Uri, string) -> Option<Uri>

  /** An `<a>` element that carries an `href` attribute: the attribute's raw
      value and the element's inner text. */
  datatype Anchor = Anchor(href: string, innerText: string)

  /** One extracted link: its visible label and its target. */
  datatype ScrapeLink = ScrapeLink(text: string, href: string)

  /** The target of a non-blank trimmed `href`: its resolution against the
      page, or the trimmed text itself when resolution fails. */
  function Target(href: string, page: Uri, resolve: Resolver): (t: string)
    requires !IsBlank(href)
    ensures t != []
    ensures resolve(page, href).Some? ==> t == resolve(page, href).value.text
    ensures resolve(page, href).None? ==> t == href
  {
    match resolve(page, href)
    case Some(absolute) => absolute.text
    case None => href
  }

  /** The visible label: the cleaned inner text, or the target when the
      cleaned text is blank. */
  function Label(innerText: string, target: string, deEntitize: string -> string): (l: string)
    requires target != []
    ensures l != []
    ensures CleanText(Some(innerText), deEntitize) != [] ==> l == CleanText(Some(innerText), deEntitize)
    ensures CleanText(Some(innerText), deEntitize) == [] ==> l == target
  {
    var text := CleanText(Some(innerText), deEntitize);
    NormalizedBlank(text);
    if IsBlank(text) then target else text
  }

  /** A normalized text is blank only when it is empty. */
  lemma NormalizedBlank(s: string)
    requires IsNormalized(s)
    ensures IsBlank(s) <==> s == []
  {
    if s != [] {
      assert !IsWhiteSpace(s[0]);
    }
  }

  /** What one anchor contributes before de-duplication: nothing when the
      trimmed `href` is blank, otherwise a link to its target with its
      label. */
  function Candidate(a: Anchor, page: Uri, resolve: Resolver, deEntitize: string -> string): (c: Option<ScrapeLink>)
    ensures c.None? <==> IsBlank(a.href)
    ensures c.Some? ==> c.value.href == Target(Trim(a.href), page, resolve)
                        && c.value.text == Label(a.innerText, c.value.href, deEntitize)
  {
    var href := Trim(a.href);
    BlankIffTrimEmpty(a.href);
    TrimIdempotent(a.href);
    BlankIffTrimEmpty(href);
    if IsBlank(href) then None
    else
      var target := Target(href, page, resolve);
      Some(ScrapeLink(Label(a.innerText, target, deEntitize), target))
  }

  /** The candidates of the anchors, position by position. */
  function CandidateOptions(anchors: seq<Anchor>, page: Uri, resolve: Resolver, deEntitize: string -> string)
    : (opts: seq<Option<ScrapeLink>>)
    ensures |opts| == |anchors|
    decreases |anchors|
  {
    if |anchors| == 0 then []
    else
      CandidateOptions(anchors[..|anchors| - 1], page, resolve, deEntitize)
        + [Candidate(anchors[|anchors| - 1], page, resolve, deEntitize)]
  }

  /** Position `i` of the candidates is the candidate of anchor `i`. */
  lemma {:induction false} CandidateOptionsAt(anchors: seq<Anchor>, page: Uri, resolve: Resolver, deEntitize: string -> string, i: nat)
    requires i < |anchors|
    ensures CandidateOptions(anchors, page, resolve, deEntitize)[i] == Candidate(anchors[i], page, resolve, deEntitize)
    decreases |anchors|
  {
    var n := |anchors| - 1;
    var init := CandidateOptions(anchors[..n], page, resolve, deEntitize);
    assert CandidateOptions(anchors, page, resolve, deEntitize) == init + [Candidate(anchors[n], page, resolve, deEntitize)];
    if i < n {
      CandidateOptionsAt(anchors[..n], page, resolve, deEntitize, i);
      assert anchors[..n][i] == anchors[i];
    }
  }

  /** The present values, in order. */
  function Somes<T>(xs: seq<Option<T>>): (r: seq<T>)
    ensures |r| <= |xs|
    decreases |xs|
  {
    if |xs| == 0 then []
    else Somes(xs[..|xs| - 1]) + (if xs[|xs| - 1].Some? then [xs[|xs| - 1].value] else [])
  }

  /** The candidates of a sequence of anchors, in document order. */
  function Candidates(anchors: seq<Anchor>, page: Uri, resolve: Resolver, deEntitize: string -> string): seq<ScrapeLink>
  {
    Somes(CandidateOptions(anchors, page, resolve, deEntitize))
  }

  /** The case-insensitive identity of a link: its folded target. */
  function Key(link: ScrapeLink): string {
    FoldKey(link.href)
  }

  /** The folded targets of a sequence of links. */
  function Keys(links: seq<ScrapeLink>): set<string> {
    set i | 0 <= i < |links| :: Key(links[i])
  }

  /** `links[i]` is the first link with its key. */
  predicate IsFirstOccurrence(links: seq<ScrapeLink>, i: int)
    requires 0 <= i < |links|
  {
    forall j :: 0 <= j < i ==> Key(links[j]) != Key(links[i])
  }

  /** The links kept by case-insensitive de-duplication where the first
      occurrence wins: exactly those that are the first with their key, in
      their original order. */
  function Distinct(links: seq<ScrapeLink>): (d: seq<ScrapeLink>)
    ensures |d| <= |links|
    decreases |links|
  {
    if |links| == 0 then []
    else
      Distinct(links[..|links| - 1])
        + (if IsFirstOccurrence(links, |links| - 1) then [links[|links| - 1]] else [])
  }

  /** The first `cap` elements, none when `cap` is not positive. */
  function Take<T>(xs: seq<T>, cap: int): (r: seq<T>)
  {
    xs[..CappedLength(|xs|, cap)]
  }

  /** How many of `n` elements survive a cap: none when the cap is not
      positive, otherwise at most `cap`. */
  function CappedLength(n: nat, cap: int): (k: nat)
    ensures k <= n
    ensures cap <= 0 ==> k == 0
    ensures cap > 0 ==> k == if cap < n then cap else n
  {
    if cap <= 0 then 0 else if cap < n then cap else n
  }

  /** The links the scraper keeps: de-duplicated candidates, capped at
      `maxLinks`. */
  function KeptLinks(anchors: seq<Anchor>, page: Uri, resolve: Resolver, deEntitize: string -> string, maxLinks: int)
    : (r: seq<ScrapeLink>)
    ensures maxLinks <= 0 ==> r == []
    ensures maxLinks > 0 ==> |r| <= maxLinks
    ensures var d := Distinct(Candidates(anchors, page, resolve, deEntitize));
      |r| <= |d| && r == d[..|r|]
  {
    Take(Distinct(Candidates(anchors, page, resolve, deEntitize)), maxLinks)
  }

  /* ---------------- sequence helpers ---------------- */

  lemma PrefixOfPrefix<T>(a: seq<T>, b: seq<T>, c: seq<T>)
    requires |a| <= |b| && b[..|a|] == a
    requires |b| <= |c| && c[..|b|] == b
    ensures c[..|a|] == a
  {
  }

  lemma SnocPrefix<T>(a: seq<T>, b: seq<T>)
    ensures |a| <= |a + b| && (a + b)[..|a|] == a
  {
  }

  lemma AppendNil<T>(a: seq<T>)
    ensures a + [] == a
  {
  }

  /* ---------------- Somes ---------------- */

  lemma SomesStep<T>(xs: seq<Option<T>>, i: nat)
    requires i < |xs|
    ensures Somes(xs[..i + 1]) == Somes(xs[..i]) + (if xs[i].Some? then [xs[i].value] else [])
  {
    assert xs[..i + 1][..i] == xs[..i];
  }

  /** The present values of a prefix are a prefix of the present values. */
  lemma {:induction false} SomesPrefix<T>(xs: seq<Option<T>>, n: nat)
    requires n <= |xs|
    ensures |Somes(xs[..n])| <= |Somes(xs)| && Somes(xs)[..|Somes(xs[..n])|] == Somes(xs[..n])
    decreases |xs| - n
  {
    if n < |xs| {
      SomesPrefix(xs, n + 1);
      SomesStep(xs, n);
      SnocPrefix(Somes(xs[..n]), if xs[n].Some? then [xs[n].value] else []);
      PrefixOfPrefix(Somes(xs[..n]), Somes(xs[..n + 1]), Somes(xs));
    } else {
      assert xs[..n] == xs;
    }
  }

  /** Every present value sits at some position of the input. */
  lemma {:induction false} SomesOrigin<T>(xs: seq<Option<T>>, j: int)
    requires 0 <= j < |Somes(xs)|
    ensures exists i :: 0 <= i < |xs| && xs[i] == Some(Somes(xs)[j])
    decreases |xs|
  {
    var n := |xs| - 1;
    var init := xs[..n];
    if j < |Somes(init)| {
      SomesOrigin(init, j);
      var i :| 0 <= i < |init| && init[i] == Some(Somes(init)[j]);
      assert xs[i] == init[i];
      assert Somes(xs)[j] == Somes(init)[j];
    } else {
      assert xs[n] == Some(Somes(xs)[j]);
    }
  }

  /* ---------------- Distinct ---------------- */

  /** Pairwise distinct targets under case-insensitive comparison. */
  predicate UniqueKeys(links: seq<ScrapeLink>) {
    forall i, j :: 0 <= i < j < |links| ==> Key(links[i]) != Key(links[j])
  }

  lemma KeysSnoc(links: seq<ScrapeLink>, x: ScrapeLink)
    ensures Keys(links + [x]) == Keys(links) + {Key(x)}
  {
    var l := links + [x];
    forall k | k in Keys(l) ensures k in Keys(links) + {Key(x)} {
      var i :| 0 <= i < |l| && Key(l[i]) == k;
      if i < |links| {
        assert l[i] == links[i];
      }
    }
    forall k | k in Keys(links) ensures k in Keys(l) {
      var i :| 0 <= i < |links| && Key(links[i]) == k;
      assert l[i] == links[i];
    }
    assert l[|links|] == x;
  }

  /** The last link is new exactly when its key is not among the earlier ones. */
  lemma FirstOccurrenceIff(links: seq<ScrapeLink>, x: ScrapeLink)
    ensures IsFirstOccurrence(links + [x], |links|) <==> Key(x) !in Keys(links)
  {
    var l := links + [x];
    if Key(x) in Keys(links) {
      var j :| 0 <= j < |links| && Key(links[j]) == Key(x);
      assert l[j] == links[j];
    } else {
      forall j | 0 <= j < |links| ensures Key(l[j]) != Key(x) {
        assert l[j] == links[j];
        assert Key(links[j]) in Keys(links);
      }
    }
  }

  lemma DistinctSnoc(links: seq<ScrapeLink>, x: ScrapeLink)
    ensures Distinct(links + [x])
            == Distinct(links) + (if Key(x) !in Keys(links) then [x] else [])
  {
    var l := links + [x];
    assert l[..|links|] == links;
    FirstOccurrenceIff(links, x);
  }

  /** De-duplication keeps every key and invents none. */
  lemma {:induction false} KeysOfDistinct(links: seq<ScrapeLink>)
    ensures Keys(Distinct(links)) == Keys(links)
    decreases |links|
  {
    if |links| > 0 {
      var n := |links| - 1;
      var init := links[..n];
      var x := links[n];
      assert links == init + [x];
      KeysOfDistinct(init);
      KeysSnoc(init, x);
      DistinctSnoc(init, x);
      if Key(x) !in Keys(init) {
        KeysSnoc(Distinct(init), x);
      } else {
        AppendNil(Distinct(init));
      }
    }
  }

  /** De-duplication leaves no two links with the same key. */
  lemma {:induction false} DistinctUnique(links: seq<ScrapeLink>)
    ensures UniqueKeys(Distinct(links))
    decreases |links|
  {
    if |links| > 0 {
      var n := |links| - 1;
      var init := links[..n];
      var x := links[n];
      assert links == init + [x];
      DistinctUnique(init);
      DistinctSnoc(init, x);
      var d := Distinct(init);
      if Key(x) !in Keys(init) {
        KeysOfDistinct(init);
        forall i | 0 <= i < |d| ensures Key(d[i]) != Key(x) {
          assert Key(d[i]) in Keys(d);
        }
        SnocUnique(d, x);
      } else {
        AppendNil(d);
      }
    }
  }

  lemma SnocUnique(d: seq<ScrapeLink>, x: ScrapeLink)
    requires UniqueKeys(d)
    requires forall i :: 0 <= i < |d| ==> Key(d[i]) != Key(x)
    ensures UniqueKeys(d + [x])
  {
    var l := d + [x];
    forall i, j | 0 <= i < j < |l| ensures Key(l[i]) != Key(l[j]) {
      assert l[i] == d[i];
      if j < |d| {
        assert l[j] == d[j];
      }
    }
  }

  /** De-duplicating a prefix gives a prefix of the de-duplicated whole. */
  lemma {:induction false} DistinctPrefix(links: seq<ScrapeLink>, n: nat)
    requires n <= |links|
    ensures |Distinct(links[..n])| <= |Distinct(links)|
    ensures Distinct(links)[..|Distinct(links[..n])|] == Distinct(links[..n])
    decreases |links| - n
  {
    if n < |links| {
      DistinctPrefix(links, n + 1);
      var p := links[..n + 1];
      assert p == links[..n] + [links[n]];
      DistinctSnoc(links[..n], links[n]);
      SnocPrefix(Distinct(links[..n]), if Key(links[n]) !in Keys(links[..n]) then [links[n]] else []);
      PrefixOfPrefix(Distinct(links[..n]), Distinct(p), Distinct(links));
    } else {
      assert links[..n] == links;
    }
  }

  /** Every kept link is the first with its key: an independent statement
      of what `Distinct` keeps. */
  lemma {:induction false} DistinctKeepsFirsts(links: seq<ScrapeLink>, k: int)
    requires 0 <= k < |Distinct(links)|
    ensures exists i :: 0 <= i < |links| && links[i] == Distinct(links)[k] && IsFirstOccurrence(links, i)
    decreases |links|
  {
    var n := |links| - 1;
    var init := links[..n];
    var d := Distinct(init);
    if k < |d| {
      DistinctKeepsFirsts(init, k);
      var i :| 0 <= i < |init| && init[i] == d[k] && IsFirstOccurrence(init, i);
      assert links[i] == init[i];
      assert IsFirstOccurrence(links, i) by {
        forall j | 0 <= j < i ensures Key(links[j]) != Key(links[i]) {
          assert links[j] == init[j];
        }
      }
      assert Distinct(links)[k] == d[k];
    } else {
      assert Distinct(links)[k] == links[n];
    }
  }

  /** Every first occurrence is kept. */
  lemma {:induction false} DistinctKeepsAllFirsts(links: seq<ScrapeLink>, i: int)
    requires 0 <= i < |links| && IsFirstOccurrence(links, i)
    ensures links[i] in Distinct(links)
    decreases |links|
  {
    var n := |links| - 1;
    var init := links[..n];
    if i < n {
      assert IsFirstOccurrence(init, i) by {
        forall j | 0 <= j < i ensures Key(init[j]) != Key(init[i]) {
          assert init[j] == links[j];
        }
      }
      DistinctKeepsAllFirsts(init, i);
      assert links[i] == init[i];
    }
  }

  /* ---------------- the extraction loop ---------------- */

  /** `ExtractLinks`: walks the anchors in document order, stops as soon as
      `maxLinks` links are collected, skips blank `href`s, and keeps a link
      only when its target is new under case-insensitive comparison. It
      returns exactly `KeptLinks`. */
  method ExtractLinks(anchors: seq<Anchor>, page: Uri, resolve: Resolver, deEntitize: string -> string, maxLinks: int)
    returns (links: seq<ScrapeLink>)
    ensures links == KeptLinks(anchors, page, resolve, deEntitize, maxLinks)
  {
    ghost var opts := CandidateOptions(anchors, page, resolve, deEntitize);
    links := [];
    var uniqueHrefs: set<string> := {};
    var i := 0;
    assert links == Distinct(Somes(opts[..i]));
    while i < |anchors|
      invariant 0 <= i <= |anchors|
      invariant links == Distinct(Somes(opts[..i]))
      invariant uniqueHrefs == Keys(Somes(opts[..i]))
      invariant maxLinks <= 0 ==> links == []
      invariant maxLinks > 0 ==> |links| <= maxLinks
    {
      if |links| >= maxLinks {
        break;
      }
      var c := Candidate(anchors[i], page, resolve, deEntitize);
      CandidateOptionsAt(anchors, page, resolve, deEntitize, i);
      links, uniqueHrefs := Admit(links, uniqueHrefs, c, opts, i);
      i := i + 1;
    }
    ExtractLinksExit(anchors, i, page, resolve, deEntitize, maxLinks, links);
  }

  /** The body of the loop for one candidate: keep it when its target is
      new, and remember the target. */
  method Admit(links: seq<ScrapeLink>, uniqueHrefs: set<string>, c: Option<ScrapeLink>,
               ghost opts: seq<Option<ScrapeLink>>, ghost i: nat)
    returns (links': seq<ScrapeLink>, uniqueHrefs': set<string>)
    requires i < |opts| && c == opts[i]
    requires links == Distinct(Somes(opts[..i]))
    requires uniqueHrefs == Keys(Somes(opts[..i]))
    ensures links' == Distinct(Somes(opts[..i + 1]))
    ensures uniqueHrefs' == Keys(Somes(opts[..i + 1]))
    ensures |links'| <= |links| + 1
  {
    LoopStep(opts, i, links, uniqueHrefs);
    links', uniqueHrefs' := links, uniqueHrefs;
    if c.Some? {
      var link := c.value;
      var key := FoldKey(link.href);
      if key !in uniqueHrefs {
        uniqueHrefs' := uniqueHrefs + {key};
        links' := links + [link];
      }
    }
  }

  /** One iteration of the loop: a missing candidate or a known target
      changes nothing, a new target is appended and remembered. */
  lemma LoopStep(opts: seq<Option<ScrapeLink>>, i: nat, links: seq<ScrapeLink>, keys: set<string>)
    requires i < |opts|
    requires links == Distinct(Somes(opts[..i]))
    requires keys == Keys(Somes(opts[..i]))
    ensures opts[i].None? ==>
      Distinct(Somes(opts[..i + 1])) == links && Keys(Somes(opts[..i + 1])) == keys
    ensures opts[i].Some? && Key(opts[i].value) in keys ==>
      Distinct(Somes(opts[..i + 1])) == links && Keys(Somes(opts[..i + 1])) == keys
    ensures opts[i].Some? && Key(opts[i].value) !in keys ==>
      && Distinct(Somes(opts[..i + 1])) == links + [opts[i].value]
      && Keys(Somes(opts[..i + 1])) == keys + {Key(opts[i].value)}
  {
    var cs := Somes(opts[..i]);
    SomesStep(opts, i);
    if opts[i].None? {
      AppendNil(cs);
    } else {
      var link := opts[i].value;
      KeysSnoc(cs, link);
      DistinctSnoc(cs, link);
      if Key(link) in keys {
        AppendNil(links);
      }
    }
  }

  /** Where the loop stops, what it has is the capped de-duplicated list. */
  lemma ExtractLinksExit(anchors: seq<Anchor>, i: nat, page: Uri, resolve: Resolver, deEntitize: string -> string,
                         maxLinks: int, links: seq<ScrapeLink>)
    requires i <= |anchors|
    requires links == Distinct(Somes(CandidateOptions(anchors, page, resolve, deEntitize)[..i]))
    requires maxLinks <= 0 ==> links == []
    requires maxLinks > 0 ==> |links| <= maxLinks
    requires i < |anchors| ==> |links| >= maxLinks
    ensures links == KeptLinks(anchors, page, resolve, deEntitize, maxLinks)
  {
    var opts := CandidateOptions(anchors, page, resolve, deEntitize);
    StopsAtCap(opts, i, maxLinks, links);
  }

  /** The same, for any sequence of candidates. */
  lemma StopsAtCap(opts: seq<Option<ScrapeLink>>, i: nat, maxLinks: int, links: seq<ScrapeLink>)
    requires i <= |opts|
    requires links == Distinct(Somes(opts[..i]))
    requires maxLinks <= 0 ==> links == []
    requires maxLinks > 0 ==> |links| <= maxLinks
    requires i < |opts| ==> |links| >= maxLinks
    ensures links == Take(Distinct(Somes(opts)), maxLinks)
  {
    var all := Somes(opts);
    SomesPrefix(opts, i);
    DistinctPrefix(all, |Somes(opts[..i])|);
    if i == |opts| {
      assert opts[..i] == opts;
    } else {
      assert all[..|Somes(opts[..i])|] == Somes(opts[..i]);
      TakeFull(Distinct(all), links, maxLinks);
    }
  }

  /** A prefix that already holds `cap` elements (none, for a cap that is
      not positive) is what `Take` keeps. */
  lemma TakeFull<T>(d: seq<T>, links: seq<T>, cap: int)
    requires |links| <= |d| && d[..|links|] == links
    requires cap <= 0 ==> links == []
    requires cap > 0 ==> |links| == cap
    ensures links == Take(d, cap)
  {
  }

  /* ---------------- what the kept links satisfy ---------------- */

  /** The number of links is the number of distinct non-blank targets, cut
      at the cap, and the links are the first ones in document order. */
  lemma KeptLinksCount(anchors: seq<Anchor>, page: Uri, resolve: Resolver, deEntitize: string -> string, maxLinks: int)
    ensures var d := Distinct(Candidates(anchors, page, resolve, deEntitize));
      var kept := KeptLinks(anchors, page, resolve, deEntitize, maxLinks);
      var n := |Keys(Candidates(anchors, page, resolve, deEntitize))|;
      && |kept| == (if maxLinks <= 0 then 0 else if maxLinks < n then maxLinks else n)
      && kept == d[..|kept|]
  {
    DistinctCount(Candidates(anchors, page, resolve, deEntitize));
  }

  /** Links with pairwise distinct keys have as many keys as links. */
  lemma {:induction false} UniqueKeysCount(links: seq<ScrapeLink>)
    requires UniqueKeys(links)
    ensures |Keys(links)| == |links|
    decreases |links|
  {
    if |links| > 0 {
      var n := |links| - 1;
      var init := links[..n];
      var x := links[n];
      assert links == init + [x];
      assert UniqueKeys(init) by {
        forall i, j | 0 <= i < j < |init| ensures Key(init[i]) != Key(init[j]) {
          assert init[i] == links[i] && init[j] == links[j];
        }
      }
      UniqueKeysCount(init);
      KeysSnoc(init, x);
    }
  }

  /** De-duplication keeps one link per distinct case-insensitive target:
      its length is the number of distinct targets. */
  lemma DistinctCount(links: seq<ScrapeLink>)
    ensures |Distinct(links)| == |Keys(links)|
  {
    DistinctUnique(links);
    KeysOfDistinct(links);
    UniqueKeysCount(Distinct(links));
  }

  /** No two kept links share a target under case-insensitive comparison. */
  lemma KeptLinksUnique(anchors: seq<Anchor>, page: Uri, resolve: Resolver, deEntitize: string -> string, maxLinks: int)
    ensures UniqueKeys(KeptLinks(anchors, page, resolve, deEntitize, maxLinks))
  {
    var d := Distinct(Candidates(anchors, page, resolve, deEntitize));
    DistinctUnique(Candidates(anchors, page, resolve, deEntitize));
    var kept := KeptLinks(anchors, page, resolve, deEntitize, maxLinks);
    forall i, j | 0 <= i < j < |kept| ensures Key(kept[i]) != Key(kept[j]) {
      assert kept[i] == d[i] && kept[j] == d[j];
    }
  }

  /** Every kept link is what some anchor with a non-blank `href`
      contributed, so its target and its label are non-empty. */
  lemma KeptLinksFromAnchors(anchors: seq<Anchor>, page: Uri, resolve: Resolver, deEntitize: string -> string, maxLinks: int, k: int)
    requires 0 <= k < |KeptLinks(anchors, page, resolve, deEntitize, maxLinks)|
    ensures exists i :: 0 <= i < |anchors| && !IsBlank(anchors[i].href)
              && Candidate(anchors[i], page, resolve, deEntitize) == Some(KeptLinks(anchors, page, resolve, deEntitize, maxLinks)[k])
    ensures KeptLinks(anchors, page, resolve, deEntitize, maxLinks)[k].href != []
    ensures KeptLinks(anchors, page, resolve, deEntitize, maxLinks)[k].text != []
  {
    var opts := CandidateOptions(anchors, page, resolve, deEntitize);
    var cs := Somes(opts);
    var d := Distinct(cs);
    var kept := KeptLinks(anchors, page, resolve, deEntitize, maxLinks);
    assert kept[k] == d[k];
    DistinctKeepsFirsts(cs, k);
    var j :| 0 <= j < |cs| && cs[j] == d[k] && IsFirstOccurrence(cs, j);
    SomesOrigin(opts, j);
    var i :| 0 <= i < |opts| && opts[i] == Some(cs[j]);
    CandidateOptionsAt(anchors, page, resolve, deEntitize, i);
    assert Candidate(anchors[i], page, resolve, deEntitize) == Some(kept[k]);
  }
}
