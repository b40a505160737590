/** Values shared by every part of the model: failure-carrying results, an
    abstract Python float, the Python string and slice operations the
    pipeline relies on, and the record shapes sent to the vector store. */
module Common {

  datatype Option<+T> = None | Some(value: T)

  /** The outcome of an operation that may raise: its value, or the error raised. */
  datatype Result<+T, +E> = Success(value: T) | Failure(error: E)

  /** A Python float, kept abstract: a finite value or one of the three
      non-finite values that `math.isfinite` rejects. */
  datatype Num = Finite(r: real) | NaN | PosInf | NegInf

  function Min(a: int, b: int): int { if a <= b then a else b }

  function Max(a: int, b: int): int { if a <= b then b else a }

  /** `s.endswith(suffix)`: a plain, case-sensitive suffix test. */
  predicate EndsWith(s: string, suffix: string) {
    |suffix| <= |s| && s[|s| - |suffix|..] == suffix
  }

  /** The cut point of the Python slices `s[:n]` and `s[n:]` on a sequence of
      length `len`: a negative `n` counts from the end, and both are clamped. */
  function SliceIndex(len: nat, n: int): (k: nat)
    ensures k <= len
  {
    if n >= 0 then Min(n, len) else Max(0, len + n)
  }

  /** `s[:n]` */
  function SliceTo<T>(s: seq<T>, n: int): seq<T> { s[..SliceIndex(|s|, n)] }

  /** `s[n:]` */
  function SliceFrom<T>(s: seq<T>, n: int): seq<T> { s[SliceIndex(|s|, n)..] }

  /** `s[:n]` and `s[n:]` split `s` into two consecutive parts. */
  lemma SliceSplit<T>(s: seq<T>, n: int)
    ensures SliceTo(s, n) + SliceFrom(s, n) == s
    ensures SliceTo(s, n) <= s
  {
    var k := SliceIndex(|s|, n);
    assert s[..k] + s[k..] == s;
  }

  /** A prefix followed by the block after it is the longer prefix. */
  lemma PrefixConcat<T>(s: seq<T>, lo: nat, hi: nat)
    requires lo <= hi <= |s|
    ensures s[..lo] + s[lo..hi] == s[..hi]
  {
    assert forall i :: 0 <= i < hi ==> (s[..lo] + s[lo..hi])[i] == s[..hi][i];
  }

  /** `part` occurs in `whole` as a contiguous block starting at `i`. */
  ghost predicate BlockAt<T>(whole: seq<T>, part: seq<T>, i: nat) {
    i + |part| <= |whole| && whole[i..i + |part|] == part
  }

  /** A block of `a` stays a block, at the same place, once `b` follows `a`. */
  lemma BlockAtLeft<T>(a: seq<T>, b: seq<T>, part: seq<T>, i: nat)
    requires BlockAt(a, part, i)
    ensures BlockAt(a + b, part, i)
  {
    assert (a + b)[i..i + |part|] == a[i..i + |part|];
  }

  /** A block of `b` is a block of `a + b`, shifted by `|a|`. */
  lemma BlockAtRight<T>(a: seq<T>, b: seq<T>, part: seq<T>, j: nat)
    requires BlockAt(b, part, j)
    ensures BlockAt(a + b, part, |a| + j)
  {
    assert (a + b)[|a| + j..|a| + j + |part|] == b[j..j + |part|];
  }

  /** Python's `zip(a, b)`: pairs in order, as long as the shorter input. */
  function Zip<A, B>(a: seq<A>, b: seq<B>): (z: seq<(A, B)>)
    ensures |z| == Min(|a|, |b|)
    ensures forall i :: 0 <= i < |z| ==> z[i] == (a[i], b[i])
  {
    if a == [] || b == [] then [] else [(a[0], b[0])] + Zip(a[1..], b[1..])
  }

  /** One vector of an upsert request: its values and the "text" metadata.
      The random identifier the store gets with it is not modelled. */
  datatype UpsertVector = UpsertVector(values: seq<Num>, text: string)

  /** The body of one POST to `/vectors/upsert`. */
  datatype UpsertRequest = UpsertRequest(namespace: string, vectors: seq<UpsertVector>)

  /** A field of a multipart form: an uploaded file (its file name, when it
      is a string, its content type and its bytes) or a plain text value. */
  datatype FormValue =
    | FileField(filename: Option<string>, contentType: string, content: seq<bv8>)
    | TextField(text: string)

  /** The HTTP status the vector store answers a successful upsert with. */
  const StatusOk: int := 200

  /** A progress report `done / total`, sent to the caller as the percentage
      `done * 100 / total`; kept as an exact pair instead of a float. */
  datatype Progress = Progress(done: nat, total: nat) {
    function Percent(): real
      requires total > 0
    {
      (done * 100) as real / total as real
    }
  }

  /** With the same total, more work done is a strictly larger percentage,
      and less than all of it stays below 100. */
  lemma PercentMonotone(p: Progress, q: Progress)
    requires p.total == q.total > 0
    requires p.done < q.done
    ensures p.Percent() < q.Percent()
    ensures q.done < q.total ==> q.Percent() < 100.0
  {
    var t := p.total as real;
    assert (p.done * 100) as real < (q.done * 100) as real;
    assert q.done < q.total ==> (q.done * 100) as real < 100.0 * t;
  }

  /** A report that counts everything is 100 percent. */
  lemma PercentComplete(p: Progress)
    requires p.total > 0 && p.done == p.total
    ensures p.Percent() == 100.0
  {
    WholeIsHundred(p.done, p.total);
  }

  /** `d / n * 100` is 100 when `d == n`. */
  lemma WholeIsHundred(d: nat, n: nat)
    requires n > 0 && d == n
    ensures (d * 100) as real / n as real == 100.0
  {
    assert (d * 100) as real == 100.0 * (n as real);
  }
}
