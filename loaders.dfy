/** The PDF ingestion helpers of `src/helpers/loaders.py`: `pdf_reader`,
    which extracts the text of every page of an uploaded PDF, and
    `ingest_pdf`, which posts the embeddings of those texts to the vector
    store in chunks of 100 and reports progress after each chunk.

    The embeddings are given (one per text, as the embedder returns them),
    and the HTTP status the store answers the k-th post with is given by
    `status(k)`. Nothing here catches an error: the first one ends the run. */
module Loaders {
  import opened Common
  import opened Chunking
  import opened Utils

  /** The number of vectors `ingest_pdf` posts at a time, and the number of
      pages `pdf_reader` takes at a time. */
  const PdfChunkSize: nat := 100

  datatype IngestError =
    | UpsertFailed(status: int)   // the `RuntimeError` raised on a status other than 200
    | ZeroDivision                // `counter / len(texts)` with no texts

  // ------------------------------------------------------------ ingest_pdf

  /** The vectors posted for one chunk of embeddings, as the source pairs
      them: `zip(texts, chunk)` starts again at the first text for every
      chunk, and each embedding is sanitised. */
  function ChunkVectors(texts: seq<string>, chunk: seq<seq<Num>>): seq<UpsertVector> {
    var z := Zip(texts, chunk);
    seq(|z|, j requires 0 <= j < |z| => UpsertVector(SanitizeVector(z[j].1), z[j].0))
  }

  /** One vector per position both lists have, the j-th carrying the
      sanitised j-th embedding of the chunk with the metadata `texts[j]`. */
  lemma ChunkVectorsMeans(texts: seq<string>, chunk: seq<seq<Num>>)
    ensures |ChunkVectors(texts, chunk)| == Min(|texts|, |chunk|)
    ensures forall j :: 0 <= j < |ChunkVectors(texts, chunk)| ==>
      ChunkVectors(texts, chunk)[j] == UpsertVector(SanitizeVector(chunk[j]), texts[j])
  {
  }

  function ChunkRequest(texts: seq<string>, namespace: string, chunk: seq<seq<Num>>): UpsertRequest {
    UpsertRequest(namespace, ChunkVectors(texts, chunk))
  }

  /** The first of the posts `k .. n-1` that the store rejects, or `n`. */
  function FirstRejected(status: nat -> int, k: nat, n: nat): (f: nat)
    requires k <= n
    ensures k <= f <= n
    ensures forall j :: k <= j < f ==> status(j) == StatusOk
    ensures f < n ==> status(f) != StatusOk
    decreases n - k
  {
    if k == n || status(k) != StatusOk then k else FirstRejected(status, k + 1, n)
  }

  /** The chunks of embeddings that `chunker(embeddings, 100)` produces. */
  function PdfChunks(embeddings: seq<seq<Num>>): seq<seq<seq<Num>>> {
    Chunks(embeddings, PdfChunkSize)
  }

  /** How many chunks are posted: all of them up to the first rejected one,
      or only the first when there are no texts to divide by. */
  function PostedCount(texts: seq<string>, embeddings: seq<seq<Num>>, status: nat -> int): nat {
    var cs := PdfChunks(embeddings);
    if |texts| == 0 then Min(1, |cs|) else Min(FirstRejected(status, 0, |cs|) + 1, |cs|)
  }

  /** How many progress values are yielded: one per accepted chunk, none
      when there are no texts. */
  function ReportCount(texts: seq<string>, embeddings: seq<seq<Num>>, status: nat -> int): nat {
    if |texts| == 0 then 0 else FirstRejected(status, 0, |PdfChunks(embeddings)|)
  }

  /** The requests for the first `n` chunks, in order. */
  function Posts(texts: seq<string>, namespace: string, cs: seq<seq<seq<Num>>>, n: nat): (ps: seq<UpsertRequest>)
    requires n <= |cs|
    ensures |ps| == n
  {
    if n == 0 then [] else Posts(texts, namespace, cs, n - 1) + [ChunkRequest(texts, namespace, cs[n - 1])]
  }

  /** The j-th of them is the request for the j-th chunk. */
  lemma {:induction false} PostsAt(texts: seq<string>, namespace: string, cs: seq<seq<seq<Num>>>, n: nat)
    requires n <= |cs|
    ensures forall j :: 0 <= j < n ==> Posts(texts, namespace, cs, n)[j] == ChunkRequest(texts, namespace, cs[j])
  {
    if n > 0 {
      PostsAt(texts, namespace, cs, n - 1);
      var prev := Posts(texts, namespace, cs, n - 1);
      assert Posts(texts, namespace, cs, n) == prev + [ChunkRequest(texts, namespace, cs[n - 1])];
      forall j | 0 <= j < n - 1 ensures Posts(texts, namespace, cs, n)[j] == ChunkRequest(texts, namespace, cs[j]) {
        assert Posts(texts, namespace, cs, n)[j] == prev[j];
      }
    }
  }

  /** The progress values after the first `n` chunks: after the i-th, the
      embeddings of the first i + 1 chunks out of the number of texts. */
  function Reports(texts: seq<string>, cs: seq<seq<seq<Num>>>, n: nat): (rs: seq<Progress>)
    requires n <= |cs|
    ensures |rs| == n
  {
    if n == 0 then [] else Reports(texts, cs, n - 1) + [Progress(Len(cs, n), |texts|)]
  }

  lemma {:induction false} ReportsAt(texts: seq<string>, cs: seq<seq<seq<Num>>>, n: nat)
    requires n <= |cs|
    ensures forall i :: 0 <= i < n ==> Reports(texts, cs, n)[i] == Progress(Len(cs, i + 1), |texts|)
  {
    if n > 0 {
      ReportsAt(texts, cs, n - 1);
      var prev := Reports(texts, cs, n - 1);
      assert Reports(texts, cs, n) == prev + [Progress(Len(cs, n), |texts|)];
      forall i | 0 <= i < n - 1 ensures Reports(texts, cs, n)[i] == Progress(Len(cs, i + 1), |texts|) {
        assert Reports(texts, cs, n)[i] == prev[i];
      }
    }
  }

  /** The requests posted, in order. */
  function PdfSent(texts: seq<string>, namespace: string, embeddings: seq<seq<Num>>, status: nat -> int): seq<UpsertRequest> {
    Posts(texts, namespace, PdfChunks(embeddings), PostedCount(texts, embeddings, status))
  }

  /** The progress values yielded. */
  function PdfReports(texts: seq<string>, embeddings: seq<seq<Num>>, status: nat -> int): seq<Progress> {
    Reports(texts, PdfChunks(embeddings), ReportCount(texts, embeddings, status))
  }

  /** The error that ends the run, if any. */
  function PdfError(texts: seq<string>, embeddings: seq<seq<Num>>, status: nat -> int): Option<IngestError> {
    var cs := PdfChunks(embeddings);
    var f := FirstRejected(status, 0, |cs|);
    if f < |cs| && (|texts| > 0 || f == 0) then Some(UpsertFailed(status(f)))
    else if |texts| == 0 && cs != [] then Some(ZeroDivision)
    else None
  }

  /** `ingest_pdf`: for every chunk of at most 100 embeddings, the chunk's
      request is posted; a status other than 200 raises; otherwise the
      counter grows by the chunk's length and `counter / len(texts)` is
      reported. */
  method IngestPdf(texts: seq<string>, namespace: string, embeddings: seq<seq<Num>>, status: nat -> int)
    returns (sent: seq<UpsertRequest>, reports: seq<Progress>, error: Option<IngestError>)
    ensures sent == PdfSent(texts, namespace, embeddings, status)
    ensures reports == PdfReports(texts, embeddings, status)
    ensures error == PdfError(texts, embeddings, status)
  {
    var cs := PdfChunks(embeddings);
    ghost var f := FirstRejected(status, 0, |cs|);
    sent, reports, error := [], [], None;
    var counter := 0;
    for k := 0 to |cs|
      invariant k <= f
      invariant |texts| > 0 || k == 0
      invariant counter == Len(cs, k)
      invariant sent == Posts(texts, namespace, cs, k)
      invariant reports == Reports(texts, cs, k)
    {
      sent := sent + [ChunkRequest(texts, namespace, cs[k])];
      if status(k) != StatusOk {
        error := Some(UpsertFailed(status(k)));
        assert f == k;
        return;
      }
      counter := counter + |cs[k]|;
      if |texts| == 0 {
        error := Some(ZeroDivision);
        return;
      }
      reports := reports + [Progress(counter, |texts|)];
    }
  }

  /** Every posted request holds at most 100 vectors, one for each of the
      first `min(len(texts), len(chunk))` positions of its chunk, and the
      j-th of them carries the sanitised j-th embedding of the chunk with
      the metadata `texts[j]`. */
  lemma PdfSentShape(texts: seq<string>, namespace: string, embeddings: seq<seq<Num>>, status: nat -> int, k: nat)
    requires k < |PdfSent(texts, namespace, embeddings, status)|
    ensures var req := PdfSent(texts, namespace, embeddings, status)[k];
      var chunk := PdfChunks(embeddings)[k];
      && req.namespace == namespace
      && |req.vectors| == Min(|texts|, |chunk|) <= PdfChunkSize
      && forall j :: 0 <= j < |req.vectors| ==> req.vectors[j] == UpsertVector(SanitizeVector(chunk[j]), texts[j])
  {
    ChunksMeans(embeddings, PdfChunkSize);
    PostsAt(texts, namespace, PdfChunks(embeddings), PostedCount(texts, embeddings, status));
    ChunkVectorsMeans(texts, PdfChunks(embeddings)[k]);
  }

  /** The progress values strictly increase, all out of `len(texts)`, and
      the i-th counts `min(100 * (i + 1), len(embeddings))` embeddings. */
  lemma PdfReportsIncrease(texts: seq<string>, embeddings: seq<seq<Num>>, status: nat -> int)
    ensures var rs := PdfReports(texts, embeddings, status);
      && (forall i :: 0 <= i < |rs| ==> rs[i].total == |texts| && rs[i].done == Min((i + 1) * PdfChunkSize, |embeddings|))
      && (forall i, j :: 0 <= i < j < |rs| ==> rs[i].done < rs[j].done)
  {
    var cs := PdfChunks(embeddings);
    var rs := PdfReports(texts, embeddings, status);
    ChunksCount(embeddings, PdfChunkSize);
    ReportsAt(texts, cs, ReportCount(texts, embeddings, status));
    forall i | 0 <= i < |rs|
      ensures rs[i].done == Min((i + 1) * PdfChunkSize, |embeddings|)
    {
      ChunksPrefixLen(embeddings, PdfChunkSize, i + 1);
    }
    forall i, j | 0 <= i < j < |rs|
      ensures rs[i].done < rs[j].done
    {
      LenStrict(cs, i + 1, j + 1);
    }
  }

  /** When the store accepts every post and there are texts: there is no
      error, every chunk is posted, one value is reported per chunk, that is
      ceil(len(embeddings) / 100) values, and the last reports every
      embedding, which is 100 percent when there is one embedding per text. */
  lemma PdfAllAccepted(texts: seq<string>, namespace: string, embeddings: seq<seq<Num>>, status: nat -> int)
    requires |texts| > 0
    requires forall k :: status(k) == StatusOk
    ensures PdfError(texts, embeddings, status) == None
    ensures |PdfSent(texts, namespace, embeddings, status)| == |PdfChunks(embeddings)|
    ensures |PdfReports(texts, embeddings, status)| == (|embeddings| + PdfChunkSize - 1) / PdfChunkSize
    ensures embeddings != [] ==>
      PdfReports(texts, embeddings, status)[|PdfReports(texts, embeddings, status)| - 1] == Progress(|embeddings|, |texts|)
    ensures embeddings != [] && |embeddings| == |texts| ==>
      PdfReports(texts, embeddings, status)[|PdfReports(texts, embeddings, status)| - 1].Percent() == 100.0
  {
    var cs := PdfChunks(embeddings);
    ChunkCount(embeddings, PdfChunkSize);
    ChunksCount(embeddings, PdfChunkSize);
    var f := FirstRejected(status, 0, |cs|);
    assert f == |cs|;
    if embeddings != [] && |embeddings| == |texts| {
      PercentComplete(Progress(|embeddings|, |texts|));
    }
  }

  /** A rejected post ends the run right away: the rejected chunk is the
      last one posted and reports nothing, and no later chunk is posted. */
  lemma PdfRejectionStops(texts: seq<string>, namespace: string, embeddings: seq<seq<Num>>, status: nat -> int)
    requires |texts| > 0
    requires PdfError(texts, embeddings, status).Some?
    ensures var sent := PdfSent(texts, namespace, embeddings, status);
      && |sent| == |PdfReports(texts, embeddings, status)| + 1
      && status(|sent| - 1) != StatusOk
      && PdfError(texts, embeddings, status) == Some(UpsertFailed(status(|sent| - 1)))
      && forall j :: 0 <= j < |sent| - 1 ==> status(j) == StatusOk
  {
  }

  /** The defect in the pairing: with 101 texts and 101 embeddings, the
      101st embedding is posted with the metadata of the first text. */
  lemma ZipRestarts(texts: seq<string>, namespace: string, embeddings: seq<seq<Num>>, status: nat -> int)
    requires |texts| == |embeddings| == 101
    requires forall k :: status(k) == StatusOk
    ensures |PdfSent(texts, namespace, embeddings, status)| == 2
    ensures PdfSent(texts, namespace, embeddings, status)[1].vectors
         == [UpsertVector(SanitizeVector(embeddings[100]), texts[0])]
  {
    var cs := PdfChunks(embeddings);
    ChunksStep(embeddings, PdfChunkSize);
    var rest := SliceFrom(embeddings, PdfChunkSize);
    assert rest == [embeddings[100]];
    ChunksStep(rest, PdfChunkSize);
    assert SliceTo(rest, PdfChunkSize) == rest && SliceFrom(rest, PdfChunkSize) == [];
    assert cs == [SliceTo(embeddings, PdfChunkSize), rest];
    assert FirstRejected(status, 0, 2) == 2 by {
      assert FirstRejected(status, 1, 2) == 2;
    }
    ChunkVectorsMeans(texts, rest);
  }

  /** The pairing the chunking evidently intends: the chunk that starts at
      position `offset` of the embeddings is paired with the texts from the
      same position on. */
  function ChunkVectorsAt(texts: seq<string>, chunk: seq<seq<Num>>, offset: nat): seq<UpsertVector> {
    ChunkVectors(texts[Min(offset, |texts|)..], chunk)
  }

  /** The j-th vector of the chunk carries the text at position `offset + j`. */
  lemma ChunkVectorsAtMeans(texts: seq<string>, chunk: seq<seq<Num>>, offset: nat)
    ensures |ChunkVectorsAt(texts, chunk, offset)| == Min(Max(0, |texts| - offset), |chunk|)
    ensures forall j :: 0 <= j < |ChunkVectorsAt(texts, chunk, offset)| ==>
      ChunkVectorsAt(texts, chunk, offset)[j] == UpsertVector(SanitizeVector(chunk[j]), texts[offset + j])
  {
    ChunkVectorsMeans(texts[Min(offset, |texts|)..], chunk);
  }

  /** The vectors the corrected pairing posts for the first `k` chunks. */
  function CorrectedVectors(texts: seq<string>, cs: seq<seq<seq<Num>>>, k: nat): seq<UpsertVector>
    requires k <= |cs|
  {
    if k == 0 then [] else CorrectedVectors(texts, cs, k - 1) + ChunkVectorsAt(texts, cs[k - 1], Len(cs, k - 1))
  }

  /** Pairing a slice of the embeddings from its own position on gives the
      same slice of the whole-list pairing. */
  lemma SliceVectors(texts: seq<string>, embeddings: seq<seq<Num>>, lo: nat, hi: nat)
    requires |texts| == |embeddings| && lo <= hi <= |embeddings|
    ensures ChunkVectorsAt(texts, embeddings[lo..hi], lo) == ChunkVectors(texts, embeddings)[lo..hi]
  {
    var piece := ChunkVectorsAt(texts, embeddings[lo..hi], lo);
    var all := ChunkVectors(texts, embeddings);
    ChunkVectorsAtMeans(texts, embeddings[lo..hi], lo);
    ChunkVectorsMeans(texts, embeddings);
    assert |piece| == hi - lo == |all[lo..hi]|;
    forall j | 0 <= j < hi - lo ensures piece[j] == all[lo..hi][j] {
      assert embeddings[lo..hi][j] == embeddings[lo + j];
      assert piece[j] == UpsertVector(SanitizeVector(embeddings[lo + j]), texts[lo + j]);
      assert all[lo..hi][j] == all[lo + j];
    }
  }

  /** With the corrected pairing, the chunks together post exactly what one
      request for all the embeddings would: each embedding, sanitised, with
      the text at its own position. */
  lemma {:induction false} CorrectedPairing(texts: seq<string>, embeddings: seq<seq<Num>>, k: nat)
    requires |texts| == |embeddings|
    requires k <= |PdfChunks(embeddings)|
    ensures Len(PdfChunks(embeddings), k) <= |embeddings|
    ensures CorrectedVectors(texts, PdfChunks(embeddings), k)
         == ChunkVectors(texts, embeddings)[..Len(PdfChunks(embeddings), k)]
  {
    var cs := PdfChunks(embeddings);
    ChunksPrefix(embeddings, PdfChunkSize, k);
    if k > 0 {
      var j := k - 1;
      CorrectedPairing(texts, embeddings, j);
      ChunkSlice(embeddings, PdfChunkSize, j);
      var all := ChunkVectors(texts, embeddings);
      var lo, hi := Len(cs, j), Len(cs, j + 1);
      SliceVectors(texts, embeddings, lo, hi);
      PrefixConcat(all, lo, hi);
    }
  }

  // ------------------------------------------------------------ pdf_reader

  datatype ReaderError =
    | MissingFile   // the form has no "file" field: `KeyError`
    | NotAFile      // the "file" field is not an uploaded file: `AssertionError`

  /** The text of every page, in page order. */
  function PageTexts<P>(pages: seq<P>, extract: P -> string): (ts: seq<string>)
    ensures |ts| == |pages|
    ensures forall i :: 0 <= i < |pages| ==> ts[i] == extract(pages[i])
  {
    seq(|pages|, i requires 0 <= i < |pages| => extract(pages[i]))
  }

  /** `pdf_reader`: the uploaded "file" field is parsed into pages by
      `parse`, and the pages are taken 100 at a time, extracting the text of
      each in turn. */
  method PdfReader<P>(form: map<string, FormValue>, parse: seq<bv8> -> seq<P>, extract: P -> string)
    returns (r: Result<seq<string>, ReaderError>)
    ensures "file" !in form ==> r == Failure(MissingFile)
    ensures "file" in form && !form["file"].FileField? ==> r == Failure(NotAFile)
    ensures "file" in form && form["file"].FileField? ==>
      r == Success(PageTexts(parse(form["file"].content), extract))
  {
    if "file" !in form {
      return Failure(MissingFile);
    }
    var file := form["file"];
    if !file.FileField? {
      return Failure(NotAFile);
    }
    var pages := parse(file.content);
    var cs := Chunks(pages, PdfChunkSize);
    var texts: seq<string> := [];
    for k := 0 to |cs|
      invariant |texts| == Len(cs, k) <= |pages|
      invariant forall i :: 0 <= i < |texts| ==> texts[i] == extract(pages[i])
    {
      ChunkSlice(pages, PdfChunkSize, k);
      ghost var lo, hi := Len(cs, k), Len(cs, k + 1);
      for j := 0 to |cs[k]|
        invariant |texts| == lo + j
        invariant forall i :: 0 <= i < |texts| ==> texts[i] == extract(pages[i])
      {
        assert cs[k][j] == pages[lo..hi][j] == pages[lo + j];
        texts := texts + [extract(cs[k][j])];
      }
    }
    ChunksCount(pages, PdfChunkSize);
    assert texts == PageTexts(pages, extract);
    r := Success(texts);
  }

}
