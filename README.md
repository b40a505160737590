# Website and PDF ingestion, modelled in Dafny

This project models the core of the ingestion pipeline, which fills a
Pinecone-style vector store with text from a website or a PDF.

- **Sitemap resolution** (`sitemap`). A base URL is turned into the address
  of its `sitemap.xml`. Every `<loc>` whose text ends in a denied file
  extension (`BAD_EXT`) is dropped. The locations of nested sitemaps are then
  resolved in turn and their results appended in document order.
- **Page fetching** (`fetch_website`). The page text is cut at `max_size`
  before it is parsed.
- **Chunked upserting** (`sitemap_pipeline`, `upsert_embeddings`). The URL list
  is cut into chunks of `chunk_size`. Each chunk is fetched, embedded and sent
  as one upsert request. A chunk that fails is skipped. A progress value is
  yielded after every chunk that succeeds, and the pipeline stops with `"100"`
  once the inserted count reaches the number of URLs.
- **The consumer** (`IngestSiteMap.run`). It collects the yielded values in a
  local `progress` list and stops after `"100"`; the list is then discarded
  and `run` returns `None`.
- **PDF ingestion** (`pdf_reader`, `ingest_pdf`).
  - The reader takes the `file` form field and yields the text of each page.
  - The embeddings are cut into chunks of 100. Each chunk is paired with the
    texts by `zip`, sanitised and posted. A status other than 200 raises.
  - After every posted chunk, the progress `counter / len(texts)` is reported.
- **Utilities** (`src/utils.py`).
  - `sanitize_vector` replaces every NaN or infinite component by 0.0.
  - `is_async_callable` looks through `functools.partial` layers.
  - `BackgroundTasks` is an ordered task list that is run in order and stops
    at the first task that raises.
- **Upload requests** (`src/services/bucket.py`).
  - An `UploadRequest` is built from query parameters, a multipart form and
    the route's `namespace`, with each error checked in the source's order.
  - The object key is `user/namespace/filename`. The bucket name is
    `<bucket>-aiofauna`. The public URL is
    `https://s3.amazonaws.com/<bucket name>/<key>`.
  - `upload` stores the object and then builds the `Upload` record, whose
    size must be at least one.

File layout:

- `common.dfy`: shared values.
  - `Option`, `Result`, and `Num`, a float that is finite, NaN or an infinity.
  - Python slicing and `zip`.
  - The upsert request shapes.
  - `Progress`, a done/total pair whose percentage is `done*100/total`.
- `chunking.dfy`: the chunking of a sequence (`urls[:n]`, `urls[n:]` in a
  loop, and `chunker`), with its partition, count and offset lemmas. The
  offset of chunk `k` is `Len(cs, k)`.
- `sitemap_resolver.dfy`: `BAD_EXT`, the sitemap address rewrite, and the
  recursive resolver.
  - `Resolve` is the reference definition over an abstract web of parsed
    documents. It is well founded on a `rank` that decreases from parent to
    nested sitemap.
  - The methods `Sitemap`, `CollectLocs` and `ExtendNested` are proved equal
    to it.
- `sitemap_pipeline.dfy`: `upsert_embeddings`, `fetch_website`, the chunk loop
  of `sitemap_pipeline` (proved equal to the reference `Yields`), and the
  consumer loop of `run`.
- `loaders.dfy`: `ingest_pdf` as a method proved against `PdfSent`,
  `PdfReports` and `PdfError`, the corrected pairing, and `pdf_reader`.
- `utils.dfy`: `sanitize_vector`, `is_async_callable`, `BackgroundTask` and
  the `BackgroundTasks` class.
- `bucket.dfy`: bucket types, keys, bucket names, URLs, `from_request`, the
  size coercion of the `Upload` record, and `upload`.

Three behaviours of the code that a reader might not expect, which the model
follows:

- **Truncation unit.** `fetch_website` slices the decoded text
  (`html[:max_size]`), so `max_size` counts characters, not bytes, and
  `Truncate` counts characters.
- **One URL with chunk size 1.** The pipeline breaks after `"100"` as soon as
  `inserted / length >= 1`, so one URL with chunk size 1 yields only `"100"`
  (`SitemapPipeline.SingleUrlYieldsHundred`).
- **Failed chunks.** A chunk that raises goes to `except: continue` without
  counting its URLs, so `"100"` is yielded exactly when no chunk failed
  (`SitemapPipeline.YieldsHundredIff`); a run with a failed chunk never
  reaches `"100"`. This assumes that a failure inside a chunk reaches that
  `except`.

## Model

| member | source | states |
|---|---|---|
| Common.SliceIndex | src/tools/sitemap.py:106-107 | reference definition of the Python slice cut point, never beyond the length; its meaning is stated by `Common.SliceSplit` and `SitemapPipeline.Truncate` |
| Common.SliceSplit | src/tools/sitemap.py:106-107 | `urls[:n] + urls[n:]` is `urls` for every `n`, so the chunk loop loses and repeats nothing |
| Common.Zip | src/tools/sitemap.py:78 | `zip` stops at the shorter sequence and pairs elements of equal index |
| Common.PercentMonotone | src/tools/sitemap.py:114 | with the same total, a larger done count gives a larger percentage |
| Common.PercentComplete | src/helpers/loaders.py:56-57 | done equal to total gives exactly 100.0 |
| Chunking.Chunks | src/tools/sitemap.py:105-107 | reference definition of the chunking loop (`urls[:n]`, `urls[n:]`); its meaning is stated by `Chunking.ChunksMeans` and `Chunking.ChunkCount` |
| Chunking.ChunksMeans | src/tools/sitemap.py:105-107 | the chunks concatenate back to the input; each is non-empty and at most `n` long; all but the last are exactly `n` long |
| Chunking.ChunksBounds | src/tools/sitemap.py:105-107 | with `c` chunks, `(c-1)*n < len <= c*n`, and the empty input has no chunk |
| Chunking.ChunksStep | src/tools/sitemap.py:106-107 | one loop turn: the first chunk is `urls[:n]` and the rest are the chunks of `urls[n:]` |
| Chunking.ChunkCount | src/helpers/loaders.py:42 | there are `ceil(len / n)` chunks |
| Chunking.ChunksCount | src/helpers/loaders.py:42 | the chunks are non-empty and their lengths add up to the input length |
| Chunking.ChunksPrefixLen | src/helpers/loaders.py:55 | the first `i` chunks hold `min(i*n, len)` elements, which is the PDF counter after `i` posts |
| Chunking.LenStrict | src/tools/sitemap.py:113 | with non-empty chunks, the running total strictly grows from one prefix to a longer one |
| Chunking.ChunkSlice | src/helpers/loaders.py:42 | chunk `k` is the slice of the input from offset `Len(cs, k)` to `Len(cs, k+1)` |
| Chunking.ChunksPrefix | src/helpers/loaders.py:42 | the chunks before `k` concatenate to the input's prefix of length `Len(cs, k)` |
| Utils.SanitizeVector | src/utils.py:120-121 | reference definition of `sanitize_vector`; its meaning is stated by `Utils.SanitizeVectorMeans` |
| Utils.SanitizeVectorMeans | src/utils.py:120-121 | the length is kept, finite components are kept, every NaN or infinity becomes 0.0, and the result is all finite |
| Utils.SanitizeIdempotent | src/utils.py:120-121 | sanitising twice equals sanitising once |
| Utils.SanitizeFixpoint | src/utils.py:120-121 | a vector is unchanged if and only if all its components are finite |
| Utils.SanitizeExample | src/utils.py:120-121 | `[1.0, nan, inf, -inf]` becomes `[1.0, 0.0, 0.0, 0.0]` |
| Utils.Unwrapped | src/utils.py:80-81 | following `.func` through partial layers always ends at a non-partial object |
| Utils.IsAsyncCallable | src/utils.py:79-85 | the loop's answer equals the test applied to the innermost wrapped object: a coroutine function, or a callable whose `__call__` is one |
| Utils.NewBackgroundTask | src/utils.py:89-95 | the task keeps its function and arguments, and is marked async exactly when the function is |
| Utils.BackgroundTasks.constructor | src/utils.py:105-106 | the list starts as the given tasks, or empty when none are given |
| Utils.BackgroundTasks.AddTask | src/utils.py:108-112 | exactly one task is appended; the earlier tasks are unchanged |
| Utils.BackgroundTasks.Call | src/utils.py:114-116 | the tasks started are a prefix of the list in order; none before the last one raised; the run ends early exactly when the last task started raised; otherwise every task ran |
| SitemapResolver.BadExt | src/tools/sitemap.py:23-48 | the denylisted suffixes, as listed in the source |
| SitemapResolver.EndsWithAny | src/tools/sitemap.py:63 | reference definition of `str.endswith` with a tuple; its meaning is stated by `SitemapResolver.EndsWithAnyMeans` |
| SitemapResolver.Denied | src/tools/sitemap.py:63 | reference definition of the `<loc>` skip test; its meaning is stated by `SitemapResolver.DeniedExamples` and `SitemapResolver.XmlNotDenied` |
| SitemapResolver.EndsWithAnyMeans | src/tools/sitemap.py:63 | `str.endswith` with a tuple holds exactly when one of the suffixes matches |
| SitemapResolver.LastCharNotDenied | src/tools/sitemap.py:23-48 | a location whose last character ends none of the suffixes is not denied |
| SitemapResolver.DeniedExamples | src/tools/sitemap.py:23-48 | the test is a raw, case-sensitive suffix test: `mypng` is denied, `a.PNG` is kept |
| SitemapResolver.XmlNotDenied | src/tools/sitemap.py:23-48 | no denylisted suffix ends in `l`, so an address ending in `xml` is never dropped |
| SitemapResolver.RStripSlash | src/tools/sitemap.py:58 | `rstrip('/')` returns a prefix that does not end in `/`, and only slashes were removed |
| SitemapResolver.SitemapTarget | src/tools/sitemap.py:57-58 | reference definition of the address rewrite; its meaning is stated by `SitemapResolver.SitemapTargetMeans` (every fetched address ends in `xml`) and `SitemapResolver.SitemapTargetIdempotent` |
| SitemapResolver.SitemapTargetMeans | src/tools/sitemap.py:57-58 | the fetched address always ends in `xml`; an address already ending in `xml` is kept; any other becomes the stripped address plus `/sitemap.xml` |
| SitemapResolver.SitemapTargetIdempotent | src/tools/sitemap.py:57-58 | rewriting a rewritten address changes nothing |
| SitemapResolver.Locs | src/tools/sitemap.py:62 | reference definition of `[loc.text for loc in soup.findAll("loc")]`; its meaning is stated by `SitemapResolver.KeepMeans` and `SitemapResolver.CollectLocs` |
| SitemapResolver.NestedLocs | src/tools/sitemap.py:67-68 | reference definition of `nested_sitemap.loc.text` for each `findAll("sitemap")` entry; its meaning is stated by `SitemapResolver.NestedLocsMeans` |
| SitemapResolver.NestedLocsMeans | src/tools/sitemap.py:67-68 | a location is followed as many times as a `<sitemap>` entry of the document holds it, and only then |
| SitemapResolver.NestedLocsAppend | src/tools/sitemap.py:67-68 | nested sitemaps are followed in document order: a document's two parts contribute theirs one after the other |
| SitemapResolver.NestedLocsSingle | src/tools/sitemap.py:67-68 | a `<sitemap>` entry contributes its location and a `<url>` entry contributes none |
| SitemapResolver.Keep | src/tools/sitemap.py:62-65 | reference definition of the `<loc>` filter; its meaning is stated by `SitemapResolver.KeepMeans`, and `SitemapResolver.CollectLocs` computes it |
| SitemapResolver.KeepMeans | src/tools/sitemap.py:62-65 | no kept location is denied, and each allowed location keeps its multiplicity (duplicates stay) |
| SitemapResolver.Resolve | src/tools/sitemap.py:54-69 | reference definition of `sitemap`; `SitemapResolver.Sitemap` computes it, and `ResolveSound`, `ResolveCounts`, `ResolveErrorNamesMissing` and `ResolveIncludesNested` state its meaning |
| SitemapResolver.ResolveNested | src/tools/sitemap.py:67-68 | reference definition of the nested loop; `SitemapResolver.ExtendNested` computes it, and `ResolveNestedStep`, `ResolveNestedFailurePropagates` and `ResolveNestedIncludes` state its meaning |
| SitemapResolver.ResolveNestedStep | src/tools/sitemap.py:67-68 | one turn of the nested loop: the next nested sitemap ranks below its parent, and its failure becomes the loop's outcome or its result is appended |
| SitemapResolver.ResolveNestedFailureStep | src/tools/sitemap.py:67-68 | once a nested sitemap has failed, the next nested sitemap does not change the outcome |
| SitemapResolver.ResolveNestedFailurePropagates | src/tools/sitemap.py:67-68 | a failure in one nested sitemap is the outcome of the whole nested loop |
| SitemapResolver.CollectLocs | src/tools/sitemap.py:62-65 | the `<loc>` loop returns the allowed locations in document order |
| SitemapResolver.ExtendNested | src/tools/sitemap.py:67-68 | the nested loop returns the concatenated resolutions of the nested sitemaps, or the first failure |
| SitemapResolver.Sitemap | src/tools/sitemap.py:54-69 | the recursive method returns the reference resolution of the URL, including its failure |
| SitemapResolver.ResolveSound | src/tools/sitemap.py:62-69 | every resolved URL is an allowed `<loc>` of some document in the web |
| SitemapResolver.ResolveNestedSound | src/tools/sitemap.py:67-68 | every URL that the nested loop gathers is an allowed `<loc>` of some document |
| SitemapResolver.ResolveErrorNamesMissing | src/tools/sitemap.py:57-59 | a failed resolution names an address ending in `xml` that is absent from the web |
| SitemapResolver.ResolveNestedErrorNamesMissing | src/tools/sitemap.py:67-68 | the same for a failure inside the nested loop |
| SitemapResolver.ResolveIncludesNested | src/tools/sitemap.py:67-68 | the resolution of each nested sitemap appears as a contiguous block of its parent's result |
| SitemapResolver.ResolveNestedIncludes | src/tools/sitemap.py:67-68 | the same for the `k`-th nested sitemap within the nested loop |
| SitemapResolver.ResolveKeepsDuplicates | src/tools/sitemap.py:56-65 | an allowed location occurs in the result at least as often as in the root sitemap document itself (the root case of `ResolveCounts`) |
| SitemapResolver.Occurrences | src/tools/sitemap.py:54-69 | reference count of a text as a `<loc>` of the documents reached from an address, along every path of nested sitemaps; its meaning is stated by `SitemapResolver.ResolveCounts` |
| SitemapResolver.NestedOccurrences | src/tools/sitemap.py:67-68 | the same count through the first `n` nested sitemaps; its meaning is stated by `SitemapResolver.ResolveNestedCounts` |
| SitemapResolver.CountMultiset | src/tools/sitemap.py:56-65 | the occurrence count of a text in a list is its multiplicity |
| SitemapResolver.ResolveCounts | src/tools/sitemap.py:54-69 | no deduplication, exactly: a resolved result holds an allowed text once per `<loc>` occurrence in the reachable documents, a document named twice counting twice, and never holds a denylisted text |
| SitemapResolver.ResolveNestedCounts | src/tools/sitemap.py:67-68 | the same exact count for what the nested loop gathers over its first `n` sitemaps |
| SitemapResolver.FlatScenario | src/tools/sitemap.py:62-65 | a sitemap of one page and one image resolves to the page alone |
| SitemapResolver.LeafResolves | src/tools/sitemap.py:62-69 | a sitemap holding a single allowed `<loc>` resolves to that location |
| SitemapResolver.ResolveFromNested | src/tools/sitemap.py:62-69 | the result is the allowed locations of the document followed by what the nested loop gathered |
| SitemapResolver.TwoNestedResolve | src/tools/sitemap.py:67-68 | two nested sitemaps contribute their results in document order |
| SitemapResolver.KeepTwo | src/tools/sitemap.py:62-65 | two allowed locations are both kept, in order |
| SitemapResolver.NestedWebRanked | src/tools/sitemap.py:67-68 | a root naming two leaf sitemaps (possibly the same one twice) has no cycle, and its nested sitemaps are those two, in order |
| SitemapResolver.NestedScenario | src/tools/sitemap.py:54-69 | with two nested sitemaps that each hold one page, the result lists the root's locations, then the first page, then the second |
| SitemapResolver.TwiceNamedScenario | src/tools/sitemap.py:54-69 | a root naming the same one-page sitemap twice resolves to that sitemap's address twice and its page twice |
| SitemapPipeline.UpsertBody | src/tools/sitemap.py:74-80 | the request carries the namespace and `min(len(texts), len(embeddings))` vectors, each pairing the i-th embedding with the i-th text |
| SitemapPipeline.UpsertBodyTexts | src/tools/sitemap.py:76-79 | with one embedding per text, the texts stored in the request are exactly the input texts |
| SitemapPipeline.UpsertEmbeddings | src/tools/sitemap.py:71-83 | reference definition of `upsert_embeddings`: the body posted is `UpsertBody` of the embedded texts, whose meaning is stated by `SitemapPipeline.UpsertBody` and `SitemapPipeline.UpsertBodyTexts`; a failure carries the status the store answered |
| SitemapPipeline.Truncate | src/tools/sitemap.py:89 | `html[:max_size]` is a prefix whose length follows Python's slice rule, including a negative size |
| SitemapPipeline.FetchWebsite | src/tools/sitemap.py:85-92 | reference definition of `fetch_website`; its meaning is stated by `SitemapPipeline.Truncate` and `SitemapPipeline.FetchWebsiteReadsPrefix` |
| SitemapPipeline.DefaultFetchBound | src/tools/sitemap.py:86-89 | with the default `max_size`, exactly the first `min(len, 40960)` characters of a page are parsed |
| SitemapPipeline.FetchWebsiteReadsPrefix | src/tools/sitemap.py:89-90 | whatever follows the first `max_size` characters cannot change the extracted text |
| SitemapPipeline.YieldsFrom | src/tools/sitemap.py:105-122 | reference definition of the chunk loop from chunk `k` on; its meaning is stated by `SitemapPipeline.PipelineYields`, `YieldsHundredIff` and `YieldsCount` |
| SitemapPipeline.Yields | src/tools/sitemap.py:102-122 | reference definition of the values `sitemap_pipeline` yields; `SitemapPipeline.ChunkLoop` computes it and `SitemapPipeline.PipelineYields` states its meaning |
| SitemapPipeline.YieldsSkip | src/tools/sitemap.py:120-122 | a failed chunk yields nothing and does not count its URLs |
| SitemapPipeline.YieldsHundred | src/tools/sitemap.py:113-118 | a successful chunk that brings the count to the total yields `"100"` and ends the pipeline |
| SitemapPipeline.YieldsReport | src/tools/sitemap.py:113-119 | a successful chunk below the total yields its progress and the pipeline goes on |
| SitemapPipeline.OkLen | src/tools/sitemap.py:113 | reference definition of the `inserted` counter; its meaning is stated by `SitemapPipeline.OkLenBound` and `SitemapPipeline.OkLenReachesLength` |
| SitemapPipeline.OkLenBound | src/tools/sitemap.py:113 | the inserted count never exceeds the URLs seen, and equals it exactly when no chunk so far failed |
| SitemapPipeline.OkLenReachesLength | src/tools/sitemap.py:113-116 | the inserted count reaches the total exactly at the last chunk, and only if every chunk succeeded |
| SitemapPipeline.YieldsHundredIff | src/tools/sitemap.py:116-117 | `"100"` is yielded if and only if every chunk succeeds |
| SitemapPipeline.YieldsOrdered | src/tools/sitemap.py:114-119 | the yielded progress values strictly increase, stay below 100 and appear only before a final `"100"` |
| SitemapPipeline.YieldsCount | src/tools/sitemap.py:105-122 | one value is yielded per successful chunk |
| SitemapPipeline.PipelineYields | src/tools/sitemap.py:102-122 | for any URL list: values below 100 strictly increase, `"100"` can only come last, and it comes exactly when no chunk fails |
| SitemapPipeline.EmptyYieldsNothing | src/tools/sitemap.py:105 | an empty URL list yields nothing |
| SitemapPipeline.AllOkYields | src/tools/sitemap.py:105-118 | with a non-empty list and no failure, `ceil(N/k)` values are yielded and the last is `"100"` |
| SitemapPipeline.ChunksSuffixStep | src/tools/sitemap.py:106-107 | the remaining list's first chunk is the next chunk, and the rest of it chunks into the chunks that follow |
| SitemapPipeline.ChunkLoop | src/tools/sitemap.py:103-122 | the `while urls` loop yields the reference sequence, and its `inserted` is the size of the successful chunks |
| SitemapPipeline.Pipeline | src/tools/sitemap.py:95-122 | a failed sitemap resolution yields nothing and returns the failure; otherwise the loop's values are yielded for the resolved URLs |
| SitemapPipeline.Run | src/tools/sitemap.py:136-148 | the consumer keeps each value it reads and stops at the first `"100"` or at the end of the values |
| SitemapPipeline.RunCollectsAll | src/tools/sitemap.py:143-148 | when `"100"` can only come last, the consumer collects every yielded value |
| SitemapPipeline.DefaultChunkSizeYields | src/tools/sitemap.py:100-118 | with the default chunk size 32 and no failing chunk, `ceil(N/32)` values are yielded, the last `"100"` |
| SitemapPipeline.SingleUrlYieldsHundred | src/tools/sitemap.py:105-118 | one URL with chunk size 1, fetched successfully, yields only `"100"` |
| Loaders.ChunkVectors | src/helpers/loaders.py:43-47 | reference definition of one chunk's vectors; its meaning is stated by `Loaders.ChunkVectorsMeans` |
| Loaders.ChunkVectorsMeans | src/helpers/loaders.py:43-47 | a chunk's vectors number `min(len(texts), len(chunk))`; the j-th has the sanitised j-th embedding of the chunk and the text `texts[j]` |
| Loaders.FirstRejected | src/helpers/loaders.py:52-54 | the index of the first chunk answered with a status other than 200; every earlier chunk was answered 200 |
| Loaders.Posts | src/helpers/loaders.py:42-54 | one request per chunk posted |
| Loaders.PostsAt | src/helpers/loaders.py:42-54 | the j-th posted request is the request built from chunk j |
| Loaders.Reports | src/helpers/loaders.py:55-57 | one progress value per chunk that was accepted |
| Loaders.ReportsAt | src/helpers/loaders.py:55-57 | the i-th report is the number of embeddings in the first `i+1` chunks over `len(texts)` |
| Loaders.PdfSent | src/helpers/loaders.py:42-54 | reference definition of the requests `ingest_pdf` posts; `Loaders.IngestPdf` computes it and `PdfSentShape`, `PdfAllAccepted` and `PdfRejectionStops` state its meaning |
| Loaders.PdfReports | src/helpers/loaders.py:55-57 | reference definition of the progress values `ingest_pdf` yields; `Loaders.IngestPdf` computes it and `Loaders.PdfReportsIncrease` states its meaning |
| Loaders.PdfError | src/helpers/loaders.py:52-56 | reference definition of how `ingest_pdf` fails; `Loaders.IngestPdf` computes it and `PdfRejectionStops` and `PdfAllAccepted` state its meaning |
| Loaders.IngestPdf | src/helpers/loaders.py:35-58 | the loop posts, reports and fails exactly as the reference functions say: it stops at the first rejected post, and at the first report when there are no texts |
| Loaders.PdfSentShape | src/helpers/loaders.py:42-51 | every posted request carries the namespace and, for chunk k, the sanitised embeddings of that chunk, each paired with `texts[j]` |
| Loaders.PdfReportsIncrease | src/helpers/loaders.py:55-57 | the i-th report counts `min((i+1)*100, len(embeddings))` embeddings, and the reports strictly increase |
| Loaders.PdfAllAccepted | src/helpers/loaders.py:42-57 | when every post is accepted: no error, one post per chunk, `ceil(len/100)` reports ending at all embeddings, and 100.0 % at the end when there is one embedding per text |
| Loaders.PdfRejectionStops | src/helpers/loaders.py:52-54 | a rejected post is the last one sent and the only one not reported; the error carries its status; every earlier post was accepted |
| Loaders.ZipRestarts | src/helpers/loaders.py:43-47 | with 101 texts, the second request pairs the 101st embedding with the first text |
| Loaders.ChunkVectorsAtMeans | src/helpers/loaders.py:43-47 | the corrected pairing gives chunk embedding j the text `texts[offset + j]` |
| Loaders.SliceVectors | src/helpers/loaders.py:43-47 | the corrected vectors of a slice are that slice of the vectors built over the whole input |
| Loaders.CorrectedPairing | src/helpers/loaders.py:42-47 | with the corrected pairing, the vectors of the first k chunks are the whole-input pairing of their prefix, so every embedding gets its own text |
| Loaders.PageTexts | src/helpers/loaders.py:31-33 | reference definition of the page texts that `Loaders.PdfReader`'s contract uses |
| Loaders.PdfReader | src/helpers/loaders.py:24-33 | a missing `file` field or one that is not a file fails; otherwise the texts of the parsed pages are returned in order |
| Bucket.ParseBucketType | src/services/bucket.py:48 | a name maps to the bucket type that has that name; a name of no bucket type is refused |
| Bucket.BucketTypeRoundTrip | src/schemas/models.py:33 | every bucket type's name parses back to that type |
| Bucket.Key | src/services/bucket.py:35-37 | reference definition of the object key; its meaning is stated by `Bucket.KeyRoundTrip`, `Bucket.KeyInjective` and `Bucket.KeysCollideWithSlash` |
| Bucket.KeyRoundTrip | src/services/bucket.py:35-37 | a key splits back into user, namespace and filename when user and namespace have no `/` |
| Bucket.KeyInjective | src/services/bucket.py:35-37 | under the same condition, two requests with equal keys have equal user, namespace and filename |
| Bucket.KeysCollideWithSlash | src/services/bucket.py:35-37 | without the condition, user `a/b` with namespace `c` and user `a` with namespace `b/c` get the same key |
| Bucket.BucketName | src/services/bucket.py:39-41 | reference definition of the bucket name; its meaning is stated by `Bucket.BucketNameRoundTrip` |
| Bucket.BucketNameRoundTrip | src/services/bucket.py:39-41 | the bucket name contains no `/` and gives back the bucket type |
| Bucket.PublicUrl | src/services/bucket.py:80 | reference definition of the public URL; its meaning is stated by `Bucket.UrlRoundTrip` |
| Bucket.UrlRoundTrip | src/services/bucket.py:80 | the public URL gives back the bucket type and the key |
| Bucket.FromRequest | src/services/bucket.py:43-60 | missing query keys, an unknown bucket, a missing file, a non-file field, a missing filename, an unparsable size and a missing namespace each fail with their own error, and each is reported exactly when every earlier check passed and its own fails; the request is built exactly when none applies, with each field taken from its input |
| Bucket.TruncateToInt | src/schemas/models.py:98 | a finite size becomes an integer by truncation toward zero; NaN and infinities are refused |
| Bucket.RecordSizeMeans | src/schemas/models.py:98 | a size is accepted for the record exactly when it is finite and at least 1.0 |
| Bucket.Upload | src/services/bucket.py:67-92 | reference definition of `upload`; its meaning is stated by `Bucket.UploadMeans` and `Bucket.ZeroSizeStillStored` |
| Bucket.UploadMeans | src/services/bucket.py:67-92 | a bad request stores nothing; otherwise the object is stored publicly under the bucket name and key; the record is made exactly when the size is at least one; it copies the request's user, namespace, filename and content type, its key is the stored object's key, its size is the truncated request size, and its URL and bucket name the stored object |
| Bucket.ZeroSizeStillStored | src/services/bucket.py:73-90 | a request of size 0 stores the object although it produces no record |

## Left out

- Networking.
  - The HTTP sessions, their headers and the Pinecone and S3 endpoints are
    left out.
  - A web is a map from address to parsed sitemap document.
  - Page bodies are a map from address to text.
  - The store's answer to `ingest_pdf` is a status function of the chunk
    index; its answer to `upsert_embeddings` is a status function of the
    request body.
  - A page that cannot be fetched is an address missing from the map. HTTP
    error statuses of page fetches are not modelled.
- Parsing and embedding.
  - XML/HTML parsing (BeautifulSoup) and `get_text` are an `extract`
    parameter.
  - PDF parsing and `extract_text` are parameters.
  - The OpenAI embeddings are given as input.
- Identifiers and side effects.
  - `uuid4` vector ids are not modelled.
  - Logging is not modelled.
  - `asyncio.sleep(0.25)` is not modelled.
- `asyncio.gather`: the fetches of one chunk run concurrently in the source.
  The model treats a chunk's fetch and upsert as one step that succeeds or
  raises, given by the `ok` parameter.
- `handle_errors`: the decorator's source is not part of this model.
  - Bucket.FromRequest: models the body of `from_request` as if it ran as a
    bound class method. At `src/services/bucket.py:43-44` `@handle_errors`
    wraps the `classmethod` object itself, which Python 3 does not call;
    unless the decorator unwraps descriptors, the call raises before any of
    the checks, and `upload` then stores nothing. That outcome is not
    modelled.
  - A sitemap failure is modelled as propagating to the caller.
  - Failures inside a chunk reach the `except` clause of the pipeline loop.
  - A failure of `run` is left out.
- `chunker`: its source is not part of this model. It is modelled as cutting
  consecutive slices of the given size, the last one possibly shorter.
- Floating point.
  - A progress value is the pair (done, total) with the exact percentage
    `done*100/total`.
  - The string formatting of `str(progress * 100)` is left out.
  - The upload size is a `Num`, which is a real number, NaN or an infinity.
    IEEE rounding is left out.
- SitemapPipeline.Pipeline: requires `chunk_size > 0`. For a non-empty list
  the source loops forever with a chunk size of zero or less, because
  `urls[chunk_size:]` then never empties the list; for an empty list the
  loop ends at once and yields nothing.
- A `<sitemap>` entry without a `<loc>` child is not modelled: there
  `nested_sitemap.loc` is `None` and `.text` raises `AttributeError`
  (`src/tools/sitemap.py:68`), and `Document` gives every sitemap entry a
  location.
- SitemapResolver.Sitemap: stated only for webs whose sitemaps nest without a
  cycle (`Ranked`). On a reachable cycle each nested `await sitemap(...)`
  deepens the Python stack until the recursion limit raises
  `RecursionError`; what `handle_errors` then does with it is not part of
  this model. `Ranked` is asked of the whole web, not only of the
  documents reachable from the URL, so a root is outside the model's
  statements when an unrelated document has a cycle, although the source
  terminates on that root.
- SitemapPipeline.UpsertEmbeddings and Loaders.IngestPdf: a rejected upsert
  is an error carrying the response status (`UpsertRejected`,
  `UpsertFailed`). The source raises `RuntimeError` with the response body
  text, which the model does not carry.
- Loaders.IngestPdf: `ingest_pdf` is a lazy generator; chunk `k+1` is embedded
  and posted only when the consumer asks for the value after report `k`. The
  model returns the posts and reports of a generator consumed to its end (or
  to its error); a consumer that stops early is not modelled.
- Utils.BackgroundTasks.Call: each task is only a name and its arguments.
  - What a task does is not modelled, only whether it raises.
  - The dispatch to `run_in_threadpool` versus awaiting is not modelled.
  - Keyword arguments are not modelled.
- Bucket.TruncateToInt: the `Upload` record's integer `size` field is taken to
  coerce a float by truncation toward zero, which is what Python's `int()`
  does. A validator that rejects fractional values instead is not modelled.
- Bucket.Upload: the S3 `put_object` call and the Fauna `save` are returned
  as values (`puts` and the record). Their own failures are not modelled.
- Loaders.PdfReader: the `assert isinstance` is modelled as a failure. Running
  Python with assertions disabled (`-O`) is not modelled.
- Loaders.IngestPdf: keeps the pairing as written, with `zip` restarting at
  `texts[0]` in every chunk, since that is what the code does. The corrected
  pairing is modelled beside it.

## Findings

| source | as written | input that shows it | evidently intended | confidence | as-written member | corrected member |
|---|---|---|---|---|---|---|
| src/helpers/loaders.py:43-47 | every chunk of 100 embeddings is zipped with `texts` from its start, so the j-th embedding of chunk k is stored with `texts[j]` | 101 texts with 101 embeddings: the second request stores embedding 100 with the text of page 0 | chunk k pairs its j-th embedding with `texts[100*k + j]` | not executed | Loaders.ZipRestarts | Loaders.CorrectedPairing |
