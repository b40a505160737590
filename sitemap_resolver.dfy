/** The sitemap resolver of `src/tools/sitemap.py` (`sitemap`): from a root
    URL, fetch `<root>/sitemap.xml`, collect the text of every `<loc>` element
    that does not end in a denylisted extension, and append the results of
    resolving every nested `<sitemap>` entry the same way.

    A fetched, parsed sitemap is modelled as its sequence of entries in
    document order, and the web as a map from URL to document: a URL that is
    not in the map is one whose fetch fails. */
module SitemapResolver {
  import opened Common

  /** `BAD_EXT`: the suffixes of content URLs that are dropped. They carry no
      leading dot, so the test is a bare string suffix. */
  const BadExt: seq<string> := [
    "png", "jpg", "jpeg", "gif", "pdf", "doc", "docx", "ppt", "pptx", "xls",
    "xlsx", "zip", "rar", "gz", "7z", "exe", "mp3", "mp4", "avi", "mkv", "mov",
    "wmv", "flv", "swf"
  ]

  /** `s.endswith(exts)` with a tuple of suffixes: true when any of them is one. */
  predicate EndsWithAny(s: string, exts: seq<string>) {
    exts != [] && (EndsWith(s, exts[0]) || EndsWithAny(s, exts[1..]))
  }

  /** The tuple test holds exactly when one of the suffixes is a suffix. */
  lemma {:induction false} EndsWithAnyMeans(s: string, exts: seq<string>)
    ensures EndsWithAny(s, exts) <==> exists e :: e in exts && EndsWith(s, e)
  {
    if exts != [] {
      EndsWithAnyMeans(s, exts[1..]);
      assert forall e :: e in exts <==> e == exts[0] || e in exts[1..];
    }
  }

  /** A loc text that the resolver skips. */
  predicate Denied(loc: string) {
    EndsWithAny(loc, BadExt)
  }

  /** `s.rstrip('/')`: `s` without all of its trailing slashes. */
  function RStripSlash(s: string): (r: string)
    ensures r <= s
    ensures r == [] || r[|r| - 1] != '/'
    ensures forall i :: |r| <= i < |s| ==> s[i] == '/'
  {
    if s != [] && s[|s| - 1] == '/' then RStripSlash(s[..|s| - 1]) else s
  }

  /** The URL that `sitemap(url)` fetches: `url` itself when it ends in "xml",
      otherwise `url` without trailing slashes followed by "/sitemap.xml". */
  function SitemapTarget(url: string): string {
    if EndsWith(url, "xml") then url else RStripSlash(url) + "/sitemap.xml"
  }

  /** The fetched URL always ends in "xml"; a URL that already does is
      fetched as it is, any other gets "/sitemap.xml" after its last
      non-slash character. */
  lemma SitemapTargetMeans(url: string)
    ensures EndsWith(SitemapTarget(url), "xml")
    ensures EndsWith(url, "xml") ==> SitemapTarget(url) == url
    ensures !EndsWith(url, "xml") ==> SitemapTarget(url) == RStripSlash(url) + "/sitemap.xml"
  {
    if !EndsWith(url, "xml") {
      EndsWithXml(RStripSlash(url));
    }
  }

  lemma EndsWithXml(prefix: string)
    ensures EndsWith(prefix + "/sitemap.xml", "xml")
  {
    var t := prefix + "/sitemap.xml";
    assert t[|t| - 3..] == "/sitemap.xml"[9..];
  }

  /** Rewriting is done at most once: a rewritten URL is fetched as it is. */
  lemma SitemapTargetIdempotent(url: string)
    ensures SitemapTarget(SitemapTarget(url)) == SitemapTarget(url)
  {
    SitemapTargetMeans(url);
  }

  /** The element of a sitemap that holds a `<loc>`: a content `<url>`, or a
      `<sitemap>` entry that points at a nested sitemap. */
  datatype Entry = UrlEntry(loc: string) | SitemapEntry(loc: string)

  type Document = seq<Entry>

  type Web = map<string, Document>

  datatype ResolveError = FetchFailed(url: string)

  /** `soup.findAll("loc")`: the text of every `<loc>` in document order,
      including the one inside each `<sitemap>` entry. */
  function Locs(doc: Document): (r: seq<string>)
    ensures |r| == |doc|
  {
    seq(|doc|, i requires 0 <= i < |doc| => doc[i].loc)
  }

  /** `nested_sitemap.loc.text` for every `<sitemap>` entry, in document order. */
  function NestedLocs(doc: Document): seq<string> {
    if doc == [] then []
    else (if doc[0].SitemapEntry? then [doc[0].loc] else []) + NestedLocs(doc[1..])
  }

  /** The nested sitemaps named are those of the `<sitemap>` entries, each
      named as many times as such an entry holds it. */
  lemma {:induction false} NestedLocsMeans(doc: Document)
    ensures forall l :: multiset(NestedLocs(doc))[l] == multiset(doc)[SitemapEntry(l)]
    ensures forall l :: l in NestedLocs(doc) <==> SitemapEntry(l) in doc
  {
    if doc != [] {
      NestedLocsMeans(doc[1..]);
      assert doc == [doc[0]] + doc[1..];
      assert forall e :: e in doc <==> e == doc[0] || e in doc[1..];
    }
  }

  /** The nested sitemaps are named in document order: those of a document
      made of two parts are those of the first part followed by those of the
      second; with `NestedLocsSingle` this determines `NestedLocs`. */
  lemma {:induction false} NestedLocsAppend(a: Document, b: Document)
    ensures NestedLocs(a + b) == NestedLocs(a) + NestedLocs(b)
  {
    if a != [] {
      assert (a + b)[1..] == a[1..] + b;
      NestedLocsAppend(a[1..], b);
    } else {
      assert a + b == b;
    }
  }

  /** A `<sitemap>` entry names its loc; a `<url>` entry names none. */
  lemma NestedLocsSingle(l: string)
    ensures NestedLocs([SitemapEntry(l)]) == [l]
    ensures NestedLocs([UrlEntry(l)]) == []
  {
    assert [SitemapEntry(l)][1..] == [] && [UrlEntry(l)][1..] == [];
  }

  /** The first loop of `sitemap`: the loc texts kept, in order. */
  function Keep(locs: seq<string>): seq<string> {
    if locs == [] then []
    else
      var last := locs[|locs| - 1];
      Keep(locs[..|locs| - 1]) + (if Denied(last) then [] else [last])
  }

  /** Keeping is filtering: no kept text is denylisted, and every other text
      is kept as many times as it occurs. */
  lemma {:induction false} KeepMeans(locs: seq<string>)
    ensures forall x :: x in Keep(locs) ==> !Denied(x)
    ensures forall x :: multiset(Keep(locs))[x] == if Denied(x) then 0 else multiset(locs)[x]
  {
    if locs != [] {
      var last := locs[|locs| - 1];
      assert locs == locs[..|locs| - 1] + [last];
      KeepMeans(locs[..|locs| - 1]);
    }
  }

  /** The source has no cycle detection; resolving terminates on webs whose
      sitemaps can be ranked so that every nested sitemap that exists has a
      smaller rank than the sitemap naming it: the nesting is acyclic. */
  ghost predicate Ranked(web: Web, rank: map<string, nat>) {
    web.Keys <= rank.Keys && forall u, i :: RankedAt(web, rank, u, i)
  }

  /** The `i`-th nested sitemap of `u`, when both exist, ranks below `u`. */
  ghost predicate RankedAt(web: Web, rank: map<string, nat>, u: string, i: nat)
    requires web.Keys <= rank.Keys
  {
    (u in web && i < |NestedLocs(web[u])| && SitemapTarget(NestedLocs(web[u])[i]) in web) ==>
      rank[SitemapTarget(NestedLocs(web[u])[i])] < rank[u]
  }

  ghost function Depth(web: Web, rank: map<string, nat>, url: string): nat
    requires web.Keys <= rank.Keys
  {
    var t := SitemapTarget(url);
    if t in web then rank[t] + 1 else 0
  }

  /** The result of `sitemap(url)`: the kept locs of the fetched document
      followed by the results for its nested sitemaps, concatenated in order;
      the first fetch that fails anywhere makes the whole call fail. */
  ghost function Resolve(web: Web, rank: map<string, nat>, url: string): Result<seq<string>, ResolveError>
    requires Ranked(web, rank)
    decreases Depth(web, rank, url), 0
  {
    var t := SitemapTarget(url);
    if t !in web then Failure(FetchFailed(t))
    else
      var nested := ResolveNested(web, rank, t, |NestedLocs(web[t])|);
      if nested.Failure? then Failure(nested.error)
      else Success(Keep(Locs(web[t])) + nested.value)
  }

  /** The results for the first `n` nested sitemaps of the document at
      `parent`, concatenated in order, or the first failure among them. */
  ghost function ResolveNested(web: Web, rank: map<string, nat>, parent: string, n: nat): Result<seq<string>, ResolveError>
    requires Ranked(web, rank)
    requires parent in web && n <= |NestedLocs(web[parent])|
    decreases rank[parent], n
  {
    if n == 0 then Success([])
    else
      var prefix := ResolveNested(web, rank, parent, n - 1);
      if prefix.Failure? then prefix
      else
        assert RankedAt(web, rank, parent, n - 1);
        var r := Resolve(web, rank, NestedLocs(web[parent])[n - 1]);
        if r.Failure? then r else Success(prefix.value + r.value)
  }

  /** After the first `j` nested sitemaps have resolved to `urls`, the next
      one either fails for all of them or appends its own result. */
  lemma ResolveNestedStep(web: Web, rank: map<string, nat>, parent: string, j: nat, urls: seq<string>)
    requires Ranked(web, rank)
    requires parent in web && j < |NestedLocs(web[parent])|
    requires ResolveNested(web, rank, parent, j) == Success(urls)
    ensures Depth(web, rank, NestedLocs(web[parent])[j]) <= rank[parent]
    ensures var sub := Resolve(web, rank, NestedLocs(web[parent])[j]);
            ResolveNested(web, rank, parent, j + 1)
              == if sub.Failure? then sub else Success(urls + sub.value)
  {
    assert RankedAt(web, rank, parent, j);
  }

  /** A failure among the first `m` nested sitemaps is the result for `m + 1`. */
  lemma ResolveNestedFailureStep(web: Web, rank: map<string, nat>, parent: string, m: nat)
    requires Ranked(web, rank)
    requires parent in web && m < |NestedLocs(web[parent])|
    requires ResolveNested(web, rank, parent, m).Failure?
    ensures ResolveNested(web, rank, parent, m + 1) == ResolveNested(web, rank, parent, m)
  {
  }

  /** Once the first `j` nested sitemaps fail, the whole list fails the same way. */
  lemma {:induction false} ResolveNestedFailurePropagates(web: Web, rank: map<string, nat>, parent: string, j: nat, n: nat)
    requires Ranked(web, rank)
    requires parent in web && j <= n <= |NestedLocs(web[parent])|
    requires ResolveNested(web, rank, parent, j).Failure?
    ensures ResolveNested(web, rank, parent, n) == ResolveNested(web, rank, parent, j)
    decreases n - j
  {
    if j < n {
      ResolveNestedFailureStep(web, rank, parent, j);
      ResolveNestedFailurePropagates(web, rank, parent, j + 1, n);
    }
  }

  /** The first loop of `sitemap`: every loc text that is not denylisted is
      appended, in document order. */
  method CollectLocs(locs: seq<string>) returns (urls: seq<string>)
    ensures urls == Keep(locs)
  {
    urls := [];
    for i := 0 to |locs|
      invariant urls == Keep(locs[..i])
    {
      assert locs[..i + 1][..i] == locs[..i];
      if !Denied(locs[i]) {
        urls := urls + [locs[i]];
      }
    }
    assert locs[..|locs|] == locs;
  }

  /** `sitemap(url, session)`, as the source writes it: the target URL is
      rewritten, the kept locs are appended one by one, then the results of
      the recursive calls for the nested sitemaps are appended. */
  method Sitemap(web: Web, url: string, ghost rank: map<string, nat>) returns (r: Result<seq<string>, ResolveError>)
    requires Ranked(web, rank)
    ensures r == Resolve(web, rank, url)
    decreases Depth(web, rank, url), 0
  {
    var target := url;
    if !EndsWith(url, "xml") {
      target := RStripSlash(url) + "/sitemap.xml";
    }
    assert target == SitemapTarget(url);
    if target !in web {
      return Failure(FetchFailed(target));
    }
    var doc := web[target];
    var urls := CollectLocs(Locs(doc));
    var nested := ExtendNested(web, NestedLocs(doc), rank, target);
    if nested.Failure? {
      return Failure(nested.error);
    }
    r := Success(urls + nested.value);
  }

  /** The second loop of `sitemap`: the result of the recursive call for each
      nested sitemap of the document at `parent` is appended in turn; a call
      that raises ends the loop. */
  method ExtendNested(web: Web, nested: seq<string>, ghost rank: map<string, nat>, ghost parent: string)
    returns (r: Result<seq<string>, ResolveError>)
    requires Ranked(web, rank)
    requires parent in web && nested == NestedLocs(web[parent])
    ensures r == ResolveNested(web, rank, parent, |nested|)
    decreases rank[parent], 1
  {
    var urls: seq<string> := [];
    for j := 0 to |nested|
      invariant ResolveNested(web, rank, parent, j) == Success(urls)
    {
      ResolveNestedStep(web, rank, parent, j, urls);
      var sub := Sitemap(web, nested[j], rank);
      if sub.Failure? {
        ResolveNestedFailurePropagates(web, rank, parent, j + 1, |nested|);
        return sub;
      }
      urls := urls + sub.value;
    }
    r := Success(urls);
  }

  /** A loc text that some fetched sitemap holds and that is not denylisted. */
  ghost predicate Collectable(web: Web, x: string) {
    !Denied(x) && exists u :: u in web && x in Locs(web[u])
  }

  /** Soundness: every resolved URL is a kept loc text of some sitemap, so in
      particular none ends in a denylisted suffix. */
  lemma {:induction false} ResolveSound(web: Web, rank: map<string, nat>, url: string)
    requires Ranked(web, rank)
    requires Resolve(web, rank, url).Success?
    ensures forall x :: x in Resolve(web, rank, url).value ==> Collectable(web, x)
    decreases Depth(web, rank, url), 0
  {
    var t := SitemapTarget(url);
    var doc := web[t];
    ResolveNestedSound(web, rank, t, |NestedLocs(doc)|);
    KeepMeans(Locs(doc));
    forall x | x in Keep(Locs(doc)) ensures Collectable(web, x) {
      assert multiset(Keep(Locs(doc)))[x] > 0;
      assert x in Locs(web[t]);
    }
  }

  lemma {:induction false} ResolveNestedSound(web: Web, rank: map<string, nat>, parent: string, n: nat)
    requires Ranked(web, rank)
    requires parent in web && n <= |NestedLocs(web[parent])|
    requires ResolveNested(web, rank, parent, n).Success?
    ensures forall x :: x in ResolveNested(web, rank, parent, n).value ==> Collectable(web, x)
    decreases rank[parent], n
  {
    if n > 0 {
      ResolveNestedSound(web, rank, parent, n - 1);
      assert RankedAt(web, rank, parent, n - 1);
      ResolveSound(web, rank, NestedLocs(web[parent])[n - 1]);
    }
  }

  /** An error always names a sitemap URL, ending in "xml", whose fetch failed. */
  lemma {:induction false} ResolveErrorNamesMissing(web: Web, rank: map<string, nat>, url: string)
    requires Ranked(web, rank)
    requires Resolve(web, rank, url).Failure?
    ensures Resolve(web, rank, url).error.url !in web
    ensures EndsWith(Resolve(web, rank, url).error.url, "xml")
    decreases Depth(web, rank, url), 0
  {
    var t := SitemapTarget(url);
    SitemapTargetMeans(url);
    if t in web {
      ResolveNestedErrorNamesMissing(web, rank, t, |NestedLocs(web[t])|);
    }
  }

  lemma {:induction false} ResolveNestedErrorNamesMissing(web: Web, rank: map<string, nat>, parent: string, n: nat)
    requires Ranked(web, rank)
    requires parent in web && n <= |NestedLocs(web[parent])|
    requires ResolveNested(web, rank, parent, n).Failure?
    ensures ResolveNested(web, rank, parent, n).error.url !in web
    ensures EndsWith(ResolveNested(web, rank, parent, n).error.url, "xml")
    decreases rank[parent], n
  {
    if ResolveNested(web, rank, parent, n - 1).Failure? {
      ResolveNestedErrorNamesMissing(web, rank, parent, n - 1);
    } else {
      assert RankedAt(web, rank, parent, n - 1);
      ResolveErrorNamesMissing(web, rank, NestedLocs(web[parent])[n - 1]);
    }
  }

  /** Completeness one level down: every nested sitemap of the fetched
      document resolves, and its whole result, in its own order, is a
      contiguous block of the result, starting at position `i`. */
  lemma ResolveIncludesNested(web: Web, rank: map<string, nat>, url: string, child: string) returns (i: nat)
    requires Ranked(web, rank)
    requires Resolve(web, rank, url).Success?
    requires child in NestedLocs(web[SitemapTarget(url)])
    ensures Resolve(web, rank, child).Success?
    ensures BlockAt(Resolve(web, rank, url).value, Resolve(web, rank, child).value, i)
  {
    var t := SitemapTarget(url);
    var nested := NestedLocs(web[t]);
    var k :| 0 <= k < |nested| && nested[k] == child;
    var j := ResolveNestedIncludes(web, rank, t, |nested|, k);
    var own := Keep(Locs(web[t]));
    BlockAtRight(own, ResolveNested(web, rank, t, |nested|).value, Resolve(web, rank, child).value, j);
    i := |own| + j;
  }

  lemma {:induction false} ResolveNestedIncludes(web: Web, rank: map<string, nat>, parent: string, n: nat, k: nat)
    returns (i: nat)
    requires Ranked(web, rank)
    requires parent in web && k < n <= |NestedLocs(web[parent])|
    requires ResolveNested(web, rank, parent, n).Success?
    ensures Resolve(web, rank, NestedLocs(web[parent])[k]).Success?
    ensures BlockAt(ResolveNested(web, rank, parent, n).value, Resolve(web, rank, NestedLocs(web[parent])[k]).value, i)
    decreases n
  {
    assert RankedAt(web, rank, parent, n - 1);
    var prefix := ResolveNested(web, rank, parent, n - 1);
    var last := Resolve(web, rank, NestedLocs(web[parent])[n - 1]);
    assert prefix.Success? && last.Success?;
    assert ResolveNested(web, rank, parent, n).value == prefix.value + last.value;
    if k == n - 1 {
      i := |prefix.value|;
      BlockAtRight(prefix.value, last.value, last.value, 0);
    } else {
      var j := ResolveNestedIncludes(web, rank, parent, n - 1, k);
      BlockAtLeft(prefix.value, last.value, Resolve(web, rank, NestedLocs(web[parent])[k]).value, j);
      i := j;
    }
  }

  /** No deduplication: a kept loc text occurring k times in the fetched
      document occurs at least k times in the result. */
  lemma ResolveKeepsDuplicates(web: Web, rank: map<string, nat>, url: string, x: string)
    requires Ranked(web, rank)
    requires Resolve(web, rank, url).Success?
    requires !Denied(x)
    ensures multiset(Resolve(web, rank, url).value)[x] >= multiset(Locs(web[SitemapTarget(url)]))[x]
  {
    var t := SitemapTarget(url);
    KeepMeans(Locs(web[t]));
    var nested := ResolveNested(web, rank, t, |NestedLocs(web[t])|).value;
    assert Resolve(web, rank, url).value == Keep(Locs(web[t])) + nested;
  }

  /** How many times `x` occurs in `s`. */
  function Count(s: seq<string>, x: string): nat {
    if s == [] then 0 else (if s[0] == x then 1 else 0) + Count(s[1..], x)
  }

  lemma {:induction false} CountMultiset(s: seq<string>, x: string)
    ensures Count(s, x) == multiset(s)[x]
  {
    if s != [] {
      assert s == [s[0]] + s[1..];
      CountMultiset(s[1..], x);
    }
  }

  /** How many times `x` is a `<loc>` text of a document reached from `url`,
      along every path of nested sitemaps: a document named twice is counted
      twice. */
  ghost function Occurrences(web: Web, rank: map<string, nat>, url: string, x: string): nat
    requires Ranked(web, rank)
    decreases Depth(web, rank, url), 0
  {
    var t := SitemapTarget(url);
    if t !in web then 0
    else Count(Locs(web[t]), x) + NestedOccurrences(web, rank, t, |NestedLocs(web[t])|, x)
  }

  /** The occurrences reached through the first `n` nested sitemaps of `parent`. */
  ghost function NestedOccurrences(web: Web, rank: map<string, nat>, parent: string, n: nat, x: string): nat
    requires Ranked(web, rank)
    requires parent in web && n <= |NestedLocs(web[parent])|
    decreases rank[parent], n
  {
    if n == 0 then 0
    else
      assert RankedAt(web, rank, parent, n - 1);
      NestedOccurrences(web, rank, parent, n - 1, x) + Occurrences(web, rank, NestedLocs(web[parent])[n - 1], x)
  }

  /** No deduplication, exactly: a resolved result holds an allowed text once
      per occurrence as a `<loc>` in the reachable documents, counted along
      every path, and never holds a denylisted one. */
  lemma {:induction false} ResolveCounts(web: Web, rank: map<string, nat>, url: string, x: string)
    requires Ranked(web, rank)
    requires Resolve(web, rank, url).Success?
    ensures multiset(Resolve(web, rank, url).value)[x] == if Denied(x) then 0 else Occurrences(web, rank, url, x)
    decreases Depth(web, rank, url), 0
  {
    var t := SitemapTarget(url);
    KeepMeans(Locs(web[t]));
    CountMultiset(Locs(web[t]), x);
    ResolveNestedCounts(web, rank, t, |NestedLocs(web[t])|, x);
    assert Resolve(web, rank, url).value
      == Keep(Locs(web[t])) + ResolveNested(web, rank, t, |NestedLocs(web[t])|).value;
  }

  lemma {:induction false} ResolveNestedCounts(web: Web, rank: map<string, nat>, parent: string, n: nat, x: string)
    requires Ranked(web, rank)
    requires parent in web && n <= |NestedLocs(web[parent])|
    requires ResolveNested(web, rank, parent, n).Success?
    ensures multiset(ResolveNested(web, rank, parent, n).value)[x]
      == if Denied(x) then 0 else NestedOccurrences(web, rank, parent, n, x)
    decreases rank[parent], n
  {
    if n > 0 {
      assert RankedAt(web, rank, parent, n - 1);
      var child := NestedLocs(web[parent])[n - 1];
      ResolveNestedCounts(web, rank, parent, n - 1, x);
      ResolveCounts(web, rank, child, x);
      assert ResolveNested(web, rank, parent, n).value
        == ResolveNested(web, rank, parent, n - 1).value + Resolve(web, rank, child).value;
    }
  }

  /** A text whose last character ends none of the suffixes ends with none of them. */
  lemma {:induction false} LastCharNotDenied(s: string, exts: seq<string>)
    requires s != []
    requires forall i :: 0 <= i < |exts| ==> exts[i] != [] && exts[i][|exts[i]| - 1] != s[|s| - 1]
    ensures !EndsWithAny(s, exts)
  {
    if exts != [] {
      LastCharNotDenied(s, exts[1..]);
    }
  }

  /** The suffix test is bare and case-sensitive: "mypng" is dropped although
      it has no dot, and "a.PNG" is kept. */
  lemma DeniedExamples()
    ensures Denied("mypng")
    ensures !Denied("a.PNG")
  {
    assert EndsWith("mypng", BadExt[0]);
    LastCharNotDenied("a.PNG", BadExt);
  }

  /** No denylisted suffix ends in `l`, so the address of a sitemap, which
      ends in `xml`, is never dropped as a content URL. */
  lemma XmlNotDenied(s: string)
    requires EndsWith(s, "xml")
    ensures !Denied(s)
  {
    assert s[|s| - 1] == 'l';
    LastCharNotDenied(s, BadExt);
  }
  /** A root whose sitemap lists a page and an image (`/a` and `/b.png`)
      resolves to the page alone. */
  lemma FlatScenario(url: string, page: string, image: string)
    requires !Denied(page) && Denied(image)
    ensures var web := map[SitemapTarget(url) := [UrlEntry(page), UrlEntry(image)]];
            var rank := map[SitemapTarget(url) := 0];
            Ranked(web, rank) && Resolve(web, rank, url) == Success([page])
  {
    var t := SitemapTarget(url);
    var doc := [UrlEntry(page), UrlEntry(image)];
    var web := map[t := doc];
    var rank := map[t := 0];
    assert doc[1..] == [UrlEntry(image)] && doc[1..][1..] == [];
    assert NestedLocs(doc[1..]) == [];
    assert NestedLocs(doc) == [];
    forall u, i ensures RankedAt(web, rank, u, i) {
    }
    assert ResolveNested(web, rank, t, 0) == Success([]);
    ResolveFromNested(web, rank, url, []);
    assert Locs(doc) == [page, image];
    assert [page, image][..1] == [page] && [page][..0] == [];
    assert Keep([page]) == [page];
    assert Keep(Locs(doc)) + [] == [page];
  }

  /** A sitemap holding a single page, and no nested sitemap, resolves to that page. */
  lemma LeafResolves(web: Web, rank: map<string, nat>, s: string, p: string)
    requires Ranked(web, rank)
    requires EndsWith(s, "xml") && s in web && web[s] == [UrlEntry(p)] && !Denied(p)
    ensures Resolve(web, rank, s) == Success([p])
  {
    SitemapTargetMeans(s);
    assert [UrlEntry(p)][1..] == [];
    assert NestedLocs(web[s]) == [];
    assert Locs(web[s]) == [p] && [p][..0] == [];
    assert Keep(Locs(web[s])) == [p];
    assert ResolveNested(web, rank, s, |NestedLocs(web[s])|) == Success([]);
    assert SitemapTarget(s) == s;
    assert Keep(Locs(web[s])) + [] == [p];
  }

  /** A sitemap whose nested sitemaps resolve resolves to its own kept locs
      followed by their results. */
  lemma ResolveFromNested(web: Web, rank: map<string, nat>, url: string, rest: seq<string>)
    requires Ranked(web, rank)
    requires SitemapTarget(url) in web
    requires ResolveNested(web, rank, SitemapTarget(url), |NestedLocs(web[SitemapTarget(url)])|) == Success(rest)
    ensures Resolve(web, rank, url) == Success(Keep(Locs(web[SitemapTarget(url)])) + rest)
  {
  }

  /** Two nested sitemaps that resolve contribute their results in order. */
  lemma TwoNestedResolve(web: Web, rank: map<string, nat>, parent: string, s1: string, s2: string,
                         r1: seq<string>, r2: seq<string>)
    requires Ranked(web, rank)
    requires parent in web && NestedLocs(web[parent]) == [s1, s2]
    requires Resolve(web, rank, s1) == Success(r1) && Resolve(web, rank, s2) == Success(r2)
    ensures ResolveNested(web, rank, parent, 2) == Success(r1 + r2)
  {
    var nested := NestedLocs(web[parent]);
    assert nested[0] == s1 && nested[1] == s2;
    assert RankedAt(web, rank, parent, 0) && RankedAt(web, rank, parent, 1);
    assert ResolveNested(web, rank, parent, 0) == Success([]);
    assert [] + r1 == r1;
    assert ResolveNested(web, rank, parent, 1) == Success(r1);
  }

  /** Two texts that are not denylisted are both kept, in order. */
  lemma KeepTwo(a: string, b: string)
    requires !Denied(a) && !Denied(b)
    ensures Keep([a, b]) == [a, b]
  {
    assert [a, b][..1] == [a] && [a][..0] == [];
    assert Keep([a]) == [a];
  }

  /** A root sitemap naming two nested sitemaps, each holding one page. */
  function NestedWeb(root: string, s1: string, s2: string, p1: string, p2: string): Web {
    map[root := [SitemapEntry(s1), SitemapEntry(s2)], s1 := [UrlEntry(p1)], s2 := [UrlEntry(p2)]]
  }

  function NestedRank(root: string, s1: string, s2: string): map<string, nat> {
    map[root := 1, s1 := 0, s2 := 0]
  }

  /** The root ranks above the two sitemaps it names, which name none. */
  lemma NestedWebRanked(root: string, s1: string, s2: string, p1: string, p2: string)
    requires EndsWith(s1, "xml") && EndsWith(s2, "xml")
    requires (s1 != s2 || p1 == p2) && root != s1 && root != s2
    ensures Ranked(NestedWeb(root, s1, s2, p1, p2), NestedRank(root, s1, s2))
    ensures NestedLocs(NestedWeb(root, s1, s2, p1, p2)[root]) == [s1, s2]
  {
    var web, rank := NestedWeb(root, s1, s2, p1, p2), NestedRank(root, s1, s2);
    var doc := [SitemapEntry(s1), SitemapEntry(s2)];
    assert doc[1..] == [SitemapEntry(s2)] && doc[1..][1..] == [];
    assert NestedLocs(doc[1..]) == [s2];
    assert NestedLocs(doc) == [s1, s2];
    assert [UrlEntry(p1)][1..] == [] && [UrlEntry(p2)][1..] == [];
    assert NestedLocs([UrlEntry(p1)]) == [] && NestedLocs([UrlEntry(p2)]) == [];
    SitemapTargetMeans(s1);
    SitemapTargetMeans(s2);
    forall u, i ensures RankedAt(web, rank, u, i) {
    }
  }

  /** Resolving that root gives both pages and, since every `<loc>` is
      collected, the addresses of the two nested sitemaps before them. */
  lemma NestedScenario(url: string, s1: string, s2: string, p1: string, p2: string)
    requires EndsWith(s1, "xml") && EndsWith(s2, "xml")
    requires (s1 != s2 || p1 == p2) && SitemapTarget(url) != s1 && SitemapTarget(url) != s2
    requires !Denied(p1) && !Denied(p2)
    ensures var root := SitemapTarget(url);
            var web, rank := NestedWeb(root, s1, s2, p1, p2), NestedRank(root, s1, s2);
            Ranked(web, rank) && Resolve(web, rank, url) == Success([s1, s2, p1, p2])
  {
    var root := SitemapTarget(url);
    var web, rank := NestedWeb(root, s1, s2, p1, p2), NestedRank(root, s1, s2);
    NestedWebRanked(root, s1, s2, p1, p2);
    LeafResolves(web, rank, s1, p1);
    LeafResolves(web, rank, s2, p2);
    TwoNestedResolve(web, rank, root, s1, s2, [p1], [p2]);
    assert [p1] + [p2] == [p1, p2];
    assert |NestedLocs(web[root])| == 2;
    ResolveFromNested(web, rank, url, [p1, p2]);
    assert web[root] == [SitemapEntry(s1), SitemapEntry(s2)];
    assert Locs(web[root]) == [s1, s2];
    XmlNotDenied(s1);
    XmlNotDenied(s2);
    KeepTwo(s1, s2);
    assert [s1, s2] + [p1, p2] == [s1, s2, p1, p2];
  }

  /** A root naming the same nested sitemap twice collects that sitemap's
      address twice and its page twice. */
  lemma TwiceNamedScenario(url: string, s: string, p: string)
    requires EndsWith(s, "xml") && SitemapTarget(url) != s && !Denied(p)
    ensures var root := SitemapTarget(url);
            var web, rank := NestedWeb(root, s, s, p, p), NestedRank(root, s, s);
            Ranked(web, rank) && Resolve(web, rank, url) == Success([s, s, p, p])
  {
    NestedScenario(url, s, s, p, p);
  }
}
