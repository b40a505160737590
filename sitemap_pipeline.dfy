/** The ingestion side of `src/tools/sitemap.py`: the upsert request built
    for a batch of page texts, the truncated page fetch, the chunk loop of
    `sitemap_pipeline` with its progress reports, and `IngestSiteMap.run`,
    which consumes those reports up to "100".

    Fetching, embedding and posting are outside the model. The outcome of
    one chunk's fetch-and-upsert step is given by an oracle `ok`, indexed by
    the position of the chunk: `ok(k)` holds when the k-th chunk's step
    returns normally, and a step that raises is caught and skipped. */
module SitemapPipeline {
  import opened Common
  import opened Chunking
  import opened SitemapResolver

  /** The chunk size `sitemap_pipeline` uses when none is given. */
  const DefaultChunkSize: nat := 32

  /** The page size `fetch_website` parses when none is given. */
  const DefaultMaxSize: int := 40960

  /** What the generator yields: "100", or `str(progress * 100)` for the
      progress `done / total` reached so far, kept as the exact pair. */
  datatype Yield = Report(p: Progress) | Hundred

  // ---------------------------------------------------------------- upsert

  /** The body `upsert_embeddings` posts: one vector per (text, embedding)
      pair of `zip(texts, embeddings)`, tagged with that text. */
  function UpsertBody(texts: seq<string>, namespace: string, embeddings: seq<seq<Num>>): (req: UpsertRequest)
    ensures req.namespace == namespace
    ensures |req.vectors| == Min(|texts|, |embeddings|)
    ensures forall i :: 0 <= i < |req.vectors| ==> req.vectors[i] == UpsertVector(embeddings[i], texts[i])
  {
    var z := Zip(texts, embeddings);
    UpsertRequest(namespace, seq(|z|, i requires 0 <= i < |z| => UpsertVector(z[i].1, z[i].0)))
  }

  datatype UpsertError = UpsertRejected(status: int)

  /** `upsert_embeddings`: the texts are embedded by `embed`, the body is
      posted, and a status other than 200 (given by `status` for the body
      posted) raises. The request is posted in either case. */
  function UpsertEmbeddings(texts: seq<string>, namespace: string, embed: seq<string> -> seq<seq<Num>>,
                            status: UpsertRequest -> int): (r: Result<UpsertRequest, UpsertError>)
    ensures r.Success? <==> status(UpsertBody(texts, namespace, embed(texts))) == StatusOk
    ensures r.Success? ==> r.value == UpsertBody(texts, namespace, embed(texts))
    ensures r.Failure? ==> r.error.status == status(UpsertBody(texts, namespace, embed(texts))) != StatusOk
  {
    var body := UpsertBody(texts, namespace, embed(texts));
    var code := status(body);
    if code != StatusOk then Failure(UpsertRejected(code)) else Success(body)
  }

  /** Every text becomes the metadata of exactly one vector when the
      embedder returns one embedding per text, and in the same order. */
  lemma UpsertBodyTexts(texts: seq<string>, namespace: string, embeddings: seq<seq<Num>>)
    requires |embeddings| == |texts|
    ensures seq(|texts|, i requires 0 <= i < |texts| => UpsertBody(texts, namespace, embeddings).vectors[i].text) == texts
  {
    var req := UpsertBody(texts, namespace, embeddings);
    assert forall i :: 0 <= i < |texts| ==> req.vectors[i].text == texts[i];
  }

  // ----------------------------------------------------------------- fetch

  /** `html[:max_size]`: the part of a page that is parsed. */
  function Truncate(html: string, maxSize: int): (t: string)
    ensures t <= html
    ensures maxSize >= 0 ==> |t| == Min(|html|, maxSize)
    ensures maxSize < 0 ==> |t| == Max(0, |html| + maxSize)
  {
    SliceTo(html, maxSize)
  }

  /** `fetch_website`: the text `extract` finds in the first `max_size`
      characters of the page; a page that cannot be fetched (a URL that is
      not in `pages`) gives no text. */
  function FetchWebsite(pages: map<string, string>, url: string, maxSize: int, extract: string -> string): (r: Option<string>)
    ensures r.Some? <==> url in pages
    ensures r.Some? ==> r.value == extract(Truncate(pages[url], maxSize))
  {
    if url in pages then Some(extract(Truncate(pages[url], maxSize))) else None
  }

  /** Only the first `max_size` characters matter: two pages that agree on
      them give the same text, whatever follows. */
  lemma FetchWebsiteReadsPrefix(html: string, tail: string, maxSize: nat, extract: string -> string)
    requires |html| >= maxSize
    ensures extract(Truncate(html + tail, maxSize)) == extract(Truncate(html, maxSize))
  {
    assert (html + tail)[..maxSize] == html[..maxSize];
  }

  /** With the default `max_size`, at most 40960 characters of a page are parsed. */
  lemma DefaultFetchBound(html: string)
    ensures |Truncate(html, DefaultMaxSize)| == Min(|html|, 40960)
  {
  }

  // ------------------------------------------------------------ chunk loop

  /** The number of URLs in those of the first `k` chunks that succeed. */
  function OkLen(cs: seq<seq<string>>, ok: nat -> bool, k: nat): nat
    requires k <= |cs|
  {
    if k == 0 then 0 else OkLen(cs, ok, k - 1) + (if ok(k - 1) then |cs[k - 1]| else 0)
  }

  /** The number of those of the first `k` chunks that succeed. */
  function OkCount(ok: nat -> bool, k: nat): nat {
    if k == 0 then 0 else OkCount(ok, k - 1) + (if ok(k - 1) then 1 else 0)
  }

  /** Every one of the first `k` chunks succeeds. */
  predicate AllOk(ok: nat -> bool, k: nat) {
    forall j :: 0 <= j < k ==> ok(j)
  }

  /** The values the loop yields from the `k`-th chunk on, having inserted
      `inserted` of `length` URLs so far: a failing chunk yields nothing, a
      succeeding one reports the new count, or yields "100" and stops once
      the count reaches `length`. */
  function YieldsFrom(cs: seq<seq<string>>, k: nat, ok: nat -> bool, inserted: nat, length: nat): seq<Yield>
    requires k <= |cs|
    decreases |cs| - k
  {
    if k == |cs| then []
    else if !ok(k) then YieldsFrom(cs, k + 1, ok, inserted, length)
    else
      var now := inserted + |cs[k]|;
      if now >= length then [Hundred]
      else [Report(Progress(now, length))] + YieldsFrom(cs, k + 1, ok, now, length)
  }

  /** A failing chunk yields nothing. */
  lemma YieldsSkip(cs: seq<seq<string>>, k: nat, ok: nat -> bool, inserted: nat, length: nat)
    requires k < |cs| && !ok(k)
    ensures YieldsFrom(cs, k, ok, inserted, length) == YieldsFrom(cs, k + 1, ok, inserted, length)
  {
  }

  /** A succeeding chunk that reaches the total yields "100" and ends the loop. */
  lemma YieldsHundred(cs: seq<seq<string>>, k: nat, ok: nat -> bool, before: nat, now: nat, length: nat)
    requires k < |cs| && ok(k)
    requires now == before + |cs[k]| >= length
    ensures YieldsFrom(cs, k, ok, before, length) == [Hundred]
  {
  }

  /** A succeeding chunk that does not reach the total reports the new count. */
  lemma YieldsReport(cs: seq<seq<string>>, k: nat, ok: nat -> bool, before: nat, now: nat, length: nat)
    requires k < |cs| && ok(k)
    requires now == before + |cs[k]| < length
    ensures YieldsFrom(cs, k, ok, before, length)
         == [Report(Progress(now, length))] + YieldsFrom(cs, k + 1, ok, now, length)
  {
  }

  /** Everything `sitemap_pipeline` yields for the resolved list `urls`. */
  function Yields(urls: seq<string>, chunkSize: nat, ok: nat -> bool): seq<Yield>
    requires chunkSize > 0
  {
    YieldsFrom(Chunks(urls, chunkSize), 0, ok, 0, |urls|)
  }

  /** The URLs of succeeding chunks are among all URLs, and all of them are
      counted exactly when every chunk so far succeeds. */
  lemma {:induction false} OkLenBound(cs: seq<seq<string>>, ok: nat -> bool, k: nat)
    requires NonEmptyChunks(cs)
    requires k <= |cs|
    ensures OkLen(cs, ok, k) <= Len(cs, k)
    ensures OkLen(cs, ok, k) == Len(cs, k) <==> AllOk(ok, k)
  {
    if k > 0 {
      OkLenBound(cs, ok, k - 1);
      if AllOk(ok, k) {
        assert AllOk(ok, k - 1);
      }
    }
  }

  /** The count reaches the total only at the last chunk, and only when
      every chunk succeeded. */
  lemma OkLenReachesLength(cs: seq<seq<string>>, ok: nat -> bool, k: nat)
    requires NonEmptyChunks(cs)
    requires k <= |cs|
    ensures OkLen(cs, ok, k) >= Len(cs, |cs|) <==> k == |cs| && AllOk(ok, |cs|)
  {
    OkLenBound(cs, ok, k);
    if k < |cs| {
      LenStrict(cs, k, |cs|);
    }
  }

  /** "100" is yielded from chunk `k` on exactly when there is a chunk left
      and every chunk succeeds. */
  lemma {:induction false} YieldsHundredIff(cs: seq<seq<string>>, k: nat, ok: nat -> bool)
    requires NonEmptyChunks(cs)
    requires k <= |cs|
    ensures Hundred in YieldsFrom(cs, k, ok, OkLen(cs, ok, k), Len(cs, |cs|))
        <==> k < |cs| && AllOk(ok, |cs|)
    decreases |cs| - k
  {
    if k < |cs| {
      YieldsHundredIff(cs, k + 1, ok);
      OkLenReachesLength(cs, ok, k + 1);
      var ys := YieldsFrom(cs, k, ok, OkLen(cs, ok, k), Len(cs, |cs|));
      if ok(k) && OkLen(cs, ok, k + 1) < Len(cs, |cs|) {
        assert ys == [Report(Progress(OkLen(cs, ok, k + 1), Len(cs, |cs|)))]
                   + YieldsFrom(cs, k + 1, ok, OkLen(cs, ok, k + 1), Len(cs, |cs|));
      }
    }
  }

  /** Every report but possibly the last is a progress report below 100:
      "100" can only come last. */
  predicate HundredOnlyLast(ys: seq<Yield>) {
    forall i :: 0 <= i < |ys| - 1 ==> ys[i].Report?
  }

  /** The reports strictly increase, stay above `floor` and below the total,
      and "100" comes last if at all. */
  lemma {:induction false} YieldsOrdered(cs: seq<seq<string>>, k: nat, ok: nat -> bool)
    requires NonEmptyChunks(cs)
    requires k <= |cs|
    ensures var ys := YieldsFrom(cs, k, ok, OkLen(cs, ok, k), Len(cs, |cs|));
      && HundredOnlyLast(ys)
      && (forall i :: 0 <= i < |ys| && ys[i].Report? ==>
            OkLen(cs, ok, k) < ys[i].p.done < Len(cs, |cs|) && ys[i].p.total == Len(cs, |cs|))
      && (forall i, j :: 0 <= i < j < |ys| && ys[j].Report? ==> ys[i].Report? && ys[i].p.done < ys[j].p.done)
    decreases |cs| - k
  {
    if k < |cs| {
      YieldsOrdered(cs, k + 1, ok);
      var now := OkLen(cs, ok, k + 1);
      var ys := YieldsFrom(cs, k, ok, OkLen(cs, ok, k), Len(cs, |cs|));
      var tail := YieldsFrom(cs, k + 1, ok, now, Len(cs, |cs|));
      if ok(k) && now < Len(cs, |cs|) {
        assert ys == [Report(Progress(now, Len(cs, |cs|)))] + tail;
        assert forall i :: 0 < i < |ys| ==> ys[i] == tail[i - 1];
      }
    }
  }

  /** One value is yielded per succeeding chunk. */
  lemma {:induction false} YieldsCount(cs: seq<seq<string>>, k: nat, ok: nat -> bool)
    requires NonEmptyChunks(cs)
    requires k <= |cs|
    ensures OkCount(ok, k) <= OkCount(ok, |cs|)
    ensures |YieldsFrom(cs, k, ok, OkLen(cs, ok, k), Len(cs, |cs|))| == OkCount(ok, |cs|) - OkCount(ok, k)
    decreases |cs| - k
  {
    if k < |cs| {
      YieldsCount(cs, k + 1, ok);
      OkLenReachesLength(cs, ok, k + 1);
    }
  }

  /** The properties of `sitemap_pipeline`'s reports, for every resolved
      list, chunk size and chunk outcome: the progress values strictly
      increase and stay strictly between 0 and 100; "100" is yielded only
      last, and exactly when the list is non-empty and every chunk
      succeeds; one value is yielded per succeeding chunk. */
  lemma PipelineYields(urls: seq<string>, chunkSize: nat, ok: nat -> bool)
    requires chunkSize > 0
    ensures var ys := Yields(urls, chunkSize, ok);
      && HundredOnlyLast(ys)
      && (forall i :: 0 <= i < |ys| && ys[i].Report? ==>
            0 < ys[i].p.done < |urls| && ys[i].p.total == |urls| && ys[i].p.Percent() < 100.0)
      && (forall i, j :: 0 <= i < j < |ys| && ys[j].Report? ==> ys[i].Report? && ys[i].p.Percent() < ys[j].p.Percent())
      && (Hundred in ys <==> urls != [] && AllOk(ok, |Chunks(urls, chunkSize)|))
      && |ys| == OkCount(ok, |Chunks(urls, chunkSize)|)
  {
    var cs := Chunks(urls, chunkSize);
    ChunksCount(urls, chunkSize);
    YieldsOrdered(cs, 0, ok);
    YieldsHundredIff(cs, 0, ok);
    YieldsCount(cs, 0, ok);
    var ys := Yields(urls, chunkSize, ok);
    forall i | 0 <= i < |ys| && ys[i].Report?
      ensures ys[i].p.Percent() < 100.0
    {
      PercentMonotone(Progress(0, |urls|), ys[i].p);
    }
    forall i, j | 0 <= i < j < |ys| && ys[j].Report?
      ensures ys[i].Report? && ys[i].p.Percent() < ys[j].p.Percent()
    {
      PercentMonotone(ys[i].p, ys[j].p);
    }
  }

  /** An empty list yields nothing. */
  lemma EmptyYieldsNothing(chunkSize: nat, ok: nat -> bool)
    requires chunkSize > 0
    ensures Yields([], chunkSize, ok) == []
  {
  }

  /** When every chunk succeeds there are ceil(N / chunk_size) values, the
      last of them "100". */
  lemma AllOkYields(urls: seq<string>, chunkSize: nat, ok: nat -> bool)
    requires chunkSize > 0 && urls != []
    requires forall k :: ok(k)
    ensures |Yields(urls, chunkSize, ok)| == (|urls| + chunkSize - 1) / chunkSize
    ensures Yields(urls, chunkSize, ok)[|Yields(urls, chunkSize, ok)| - 1] == Hundred
  {
    var cs := Chunks(urls, chunkSize);
    PipelineYields(urls, chunkSize, ok);
    ChunkCount(urls, chunkSize);
    AllOkCount(ok, |cs|);
    var ys := Yields(urls, chunkSize, ok);
    var i :| 0 <= i < |ys| && ys[i] == Hundred;
  }

  lemma {:induction false} AllOkCount(ok: nat -> bool, k: nat)
    requires AllOk(ok, k)
    ensures OkCount(ok, k) == k
  {
    if k > 0 {
      AllOkCount(ok, k - 1);
    }
  }

  lemma AppendAssoc<T>(a: seq<T>, b: seq<T>, c: seq<T>)
    ensures a + (b + c) == (a + b) + c
  {
  }

  /** When `rest` is what is left after `k` chunks, its first slice is the
      `k`-th chunk and what is left after it is the rest of the chunks. */
  lemma ChunksSuffixStep(rest: seq<string>, chunkSize: nat, cs: seq<seq<string>>, k: nat)
    requires chunkSize > 0 && rest != []
    requires k <= |cs| && Chunks(rest, chunkSize) == cs[k..]
    ensures k < |cs| && cs[k] == SliceTo(rest, chunkSize)
    ensures Chunks(SliceFrom(rest, chunkSize), chunkSize) == cs[k + 1..]
  {
    ChunksStep(rest, chunkSize);
    assert cs[k..][0] == cs[k];
    assert cs[k..][1..] == cs[k + 1..];
  }

  /** The loop of `sitemap_pipeline` after the list is resolved: the list
      is sliced into `urls[:n]` and `urls[n:]` until it is empty; a chunk
      whose step succeeds adds its length to `inserted` and reports, or
      yields "100" and stops once `inserted` reaches the list's length. */
  method ChunkLoop(urls: seq<string>, chunkSize: nat, ok: nat -> bool) returns (emitted: seq<Yield>, inserted: nat)
    requires chunkSize > 0
    ensures emitted == Yields(urls, chunkSize, ok)
    ensures inserted == OkLen(Chunks(urls, chunkSize), ok, |Chunks(urls, chunkSize)|)
  {
    ghost var cs := Chunks(urls, chunkSize);
    var length := |urls|;
    ghost var all := Yields(urls, chunkSize, ok);
    var rest := urls;
    var k: nat := 0;
    emitted, inserted := [], 0;
    while rest != []
      invariant k <= |cs| && Chunks(rest, chunkSize) == cs[k..]
      invariant inserted == OkLen(cs, ok, k)
      invariant emitted + YieldsFrom(cs, k, ok, inserted, length) == all
      decreases |rest|
    {
      ChunksSuffixStep(rest, chunkSize, cs, k);
      var chunk := SliceTo(rest, chunkSize);
      rest := SliceFrom(rest, chunkSize);
      if ok(k) {
        ghost var before := inserted;
        inserted := inserted + |chunk|;
        if inserted >= length {
          ChunksCount(urls, chunkSize);
          OkLenReachesLength(cs, ok, k + 1);
          YieldsHundred(cs, k, ok, before, inserted, length);
          emitted := emitted + [Hundred];
          return;
        }
        var y := Report(Progress(inserted, length));
        YieldsReport(cs, k, ok, before, inserted, length);
        AppendAssoc(emitted, [y], YieldsFrom(cs, k + 1, ok, inserted, length));
        emitted := emitted + [y];
      } else {
        YieldsSkip(cs, k, ok, inserted, length);
      }
      k := k + 1;
    }
    assert cs[k..] == [];
  }

  /** `sitemap_pipeline`: the list is resolved first; a resolution that
      raises yields nothing. Returns what is yielded and, when resolution
      succeeds, how many URLs were inserted. */
  method Pipeline(web: Web, ghost rank: map<string, nat>, url: string, chunkSize: nat, ok: nat -> bool)
    returns (emitted: seq<Yield>, r: Result<nat, ResolveError>)
    requires Ranked(web, rank)
    requires chunkSize > 0
    ensures Resolve(web, rank, url).Failure? ==> emitted == [] && r == Failure(Resolve(web, rank, url).error)
    ensures Resolve(web, rank, url).Success? ==> r.Success? && emitted == Yields(Resolve(web, rank, url).value, chunkSize, ok)
  {
    var urls := Sitemap(web, url, rank);
    if urls.Failure? {
      return [], Failure(urls.error);
    }
    var inserted;
    emitted, inserted := ChunkLoop(urls.value, chunkSize, ok);
    r := Success(inserted);
  }

  // ------------------------------------------------------------------ run

  /** `progress` is what `IngestSiteMap.run` collects from `ys`: every
      value up to and including the first "100", or all of them. */
  predicate ConsumedUntilHundred(progress: seq<Yield>, ys: seq<Yield>) {
    && progress <= ys
    && HundredOnlyLast(progress)
    && (progress == ys || (progress != [] && progress[|progress| - 1] == Hundred))
  }

  /** `IngestSiteMap.run`: appends each value and stops after "100". */
  method Run(ys: seq<Yield>) returns (progress: seq<Yield>)
    ensures ConsumedUntilHundred(progress, ys)
  {
    progress := [];
    var i := 0;
    while i < |ys|
      invariant 0 <= i <= |ys|
      invariant progress == ys[..i]
      invariant forall j :: 0 <= j < i ==> ys[j].Report?
    {
      progress := progress + [ys[i]];
      if ys[i] == Hundred {
        return;
      }
      i := i + 1;
    }
    assert ys[..i] == ys;
  }

  /** On what the pipeline emitted, `run` collects every value: "100" is
      already the last one. */
  lemma RunCollectsAll(progress: seq<Yield>, ys: seq<Yield>)
    requires HundredOnlyLast(ys)
    requires ConsumedUntilHundred(progress, ys)
    ensures progress == ys
  {
  }

  /** With the default chunk size of 32 and no failing chunk, a site of `N`
      pages yields `ceil(N / 32)` values, the last of them "100". */
  lemma DefaultChunkSizeYields(urls: seq<string>, ok: nat -> bool)
    requires urls != [] && forall k :: ok(k)
    ensures |Yields(urls, DefaultChunkSize, ok)| == (|urls| + 31) / 32
    ensures Yields(urls, DefaultChunkSize, ok)[|Yields(urls, DefaultChunkSize, ok)| - 1] == Hundred
  {
    AllOkYields(urls, DefaultChunkSize, ok);
  }

  /** One resolved URL with chunk size 1: its chunk succeeds and "100" is
      the only value yielded (the source breaks before reporting any other
      value). */
  lemma SingleUrlYieldsHundred(u: string, ok: nat -> bool)
    requires ok(0)
    ensures Yields([u], 1, ok) == [Hundred]
  {
    ChunksStep([u], 1);
    assert SliceTo([u], 1) == [u] && SliceFrom([u], 1) == [];
  }
}
