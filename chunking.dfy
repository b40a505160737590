/** Splitting a list into consecutive fixed-size chunks: the slicing loop of
    `sitemap_pipeline` (`chunk = urls[:n]; urls = urls[n:]`) and the
    `chunker(xs, n)` helper that `ingest_pdf` and `pdf_reader` import, whose
    source is not part of this model and which is taken to behave the same. */
module Chunking {
  import opened Common

  /** The concatenation of a list of lists, in order. */
  function Flatten<T>(ss: seq<seq<T>>): seq<T>
  {
    if ss == [] then [] else ss[0] + Flatten(ss[1..])
  }

  lemma {:induction false} FlattenAppend<T>(a: seq<seq<T>>, b: seq<seq<T>>)
    ensures Flatten(a + b) == Flatten(a) + Flatten(b)
  {
    if a == [] {
      assert a + b == b;
    } else {
      assert (a + b)[1..] == a[1..] + b;
      FlattenAppend(a[1..], b);
    }
  }

  /** The consecutive slices of length `n` of `s`, the last possibly shorter. */
  function Chunks<T>(s: seq<T>, n: nat): seq<seq<T>>
    requires n > 0
    decreases |s|
  {
    if s == [] then [] else [SliceTo(s, n)] + Chunks(SliceFrom(s, n), n)
  }

  /** The chunks partition `s`: in order they concatenate back to `s`, each
      holds between 1 and `n` elements, and all but the last hold exactly `n`. */
  lemma {:induction false} ChunksMeans<T>(s: seq<T>, n: nat)
    requires n > 0
    ensures Flatten(Chunks(s, n)) == s
    ensures forall i :: 0 <= i < |Chunks(s, n)| ==> 0 < |Chunks(s, n)[i]| <= n
    ensures forall i :: 0 <= i < |Chunks(s, n)| - 1 ==> |Chunks(s, n)[i]| == n
    decreases |s|
  {
    if s != [] {
      SliceSplit(s, n);
      var cs := Chunks(s, n);
      var rest := Chunks(SliceFrom(s, n), n);
      ChunksMeans(SliceFrom(s, n), n);
      assert cs == [SliceTo(s, n)] + rest;
      assert cs[1..] == rest;
      assert forall i :: 0 < i < |cs| ==> cs[i] == rest[i - 1];
    }
  }

  /** The number of chunks `c` is the least with `c * n >= |s|`. */
  lemma {:induction false} ChunksBounds<T>(s: seq<T>, n: nat)
    requires n > 0
    ensures (|Chunks(s, n)| - 1) * n < |s| <= |Chunks(s, n)| * n || (s == [] && Chunks(s, n) == [])
    decreases |s|
  {
    if s != [] {
      var rest := Chunks(SliceFrom(s, n), n);
      ChunksBounds(SliceFrom(s, n), n);
      assert (|rest| + 1) * n == |rest| * n + n;
    }
  }

  /** The chunk list of `s` starts with `s[:n]` and goes on with the chunks
      of `s[n:]`: one step of the slicing loop. */
  lemma ChunksStep<T>(s: seq<T>, n: nat)
    requires n > 0 && s != []
    ensures Chunks(s, n) == [SliceTo(s, n)] + Chunks(SliceFrom(s, n), n)
  {
  }

  /** Division by a positive number is determined by the remainder lying
      in `[0, n)`. */
  lemma DivUnique(a: int, n: int, q: int, r: int)
    requires n > 0 && 0 <= r < n && a == q * n + r
    ensures a / n == q
  {
    var q', r' := a / n, a % n;
    assert a == q' * n + r';
    if q' > q {
      MulMonotone(q + 1, q', n);
      assert false;
    } else if q' < q {
      MulMonotone(q' + 1, q, n);
      assert false;
    }
  }

  lemma MulMonotone(x: int, y: int, n: int)
    requires x <= y && n > 0
    ensures x * n <= y * n
  {
  }

  /** There are ceil(|s| / n) chunks. */
  lemma ChunkCount<T>(s: seq<T>, n: nat)
    requires n > 0
    ensures |Chunks(s, n)| == (|s| + n - 1) / n
  {
    var c := |Chunks(s, n)|;
    ChunksBounds(s, n);
    if s == [] {
      DivUnique(n - 1, n, 0, n - 1);
    } else {
      assert (c - 1) * n == c * n - n;
      DivUnique(|s| + n - 1, n, c, |s| + n - 1 - c * n);
    }
  }

  /** Every chunk holds at least one element. */
  predicate NonEmptyChunks<T>(cs: seq<seq<T>>) {
    forall i :: 0 <= i < |cs| ==> |cs[i]| > 0
  }

  /** The number of elements in the first `k` chunks. */
  function Len<T>(cs: seq<seq<T>>, k: nat): nat
    requires k <= |cs|
  {
    if k == 0 then 0 else Len(cs, k - 1) + |cs[k - 1]|
  }

  /** Counting chunk lengths counts the elements of their concatenation. */
  lemma {:induction false} LenFlatten<T>(cs: seq<seq<T>>, k: nat)
    requires k <= |cs|
    ensures Len(cs, k) == |Flatten(cs[..k])|
  {
    if k > 0 {
      LenFlatten(cs, k - 1);
      assert cs[..k] == cs[..k - 1] + [cs[k - 1]];
      FlattenAppend(cs[..k - 1], [cs[k - 1]]);
      assert Flatten([cs[k - 1]]) == cs[k - 1] + Flatten([]);
    }
  }

  /** With non-empty chunks, counting more chunks counts strictly more elements. */
  lemma {:induction false} LenStrict<T>(cs: seq<seq<T>>, j: nat, k: nat)
    requires NonEmptyChunks(cs)
    requires j < k <= |cs|
    ensures Len(cs, j) < Len(cs, k)
    decreases k
  {
    if j < k - 1 {
      LenStrict(cs, j, k - 1);
    }
  }

  /** The chunks of `s` are non-empty and hold all of `s`. */
  lemma ChunksCount<T>(s: seq<T>, n: nat)
    requires n > 0
    ensures NonEmptyChunks(Chunks(s, n))
    ensures Len(Chunks(s, n), |Chunks(s, n)|) == |s|
  {
    var cs := Chunks(s, n);
    ChunksMeans(s, n);
    LenFlatten(cs, |cs|);
    assert cs[..|cs|] == cs;
  }

  /** The first `i` chunks hold `min(i * n, |s|)` elements: every chunk but
      the last is full. */
  lemma ChunksPrefixLen<T>(s: seq<T>, n: nat, i: nat)
    requires n > 0 && i <= |Chunks(s, n)|
    ensures Len(Chunks(s, n), i) == Min(i * n, |s|)
  {
    var cs := Chunks(s, n);
    if i == |cs| {
      ChunksCount(s, n);
      ChunksBounds(s, n);
      if s != [] {
        assert i * n >= |s|;
      }
    } else {
      FullChunksLen(s, n, i);
      ChunksBounds(s, n);
      MulMonotone(i, |cs| - 1, n);
    }
  }

  lemma {:induction false} FullChunksLen<T>(s: seq<T>, n: nat, i: nat)
    requires n > 0 && i < |Chunks(s, n)|
    ensures Len(Chunks(s, n), i) == i * n
  {
    if i > 0 {
      FullChunksLen(s, n, i - 1);
      ChunksMeans(s, n);
      assert (i - 1) * n + n == i * n;
    }
  }

  /** Counting over a list of chunks that starts with `c`. */
  lemma {:induction false} LenCons<T>(c: seq<T>, r: seq<seq<T>>, k: nat)
    requires 0 < k <= |r| + 1
    ensures Len([c] + r, k) == |c| + Len(r, k - 1)
  {
    if k > 1 {
      LenCons(c, r, k - 1);
      assert ([c] + r)[k - 1] == r[k - 2];
    }
  }

  /** The `k`-th chunk of `s` is the slice of `s` between the lengths of
      the first `k` and the first `k + 1` chunks. */
  lemma {:induction false} ChunkSlice<T>(s: seq<T>, n: nat, k: nat)
    requires n > 0 && k < |Chunks(s, n)|
    ensures Len(Chunks(s, n), k) <= Len(Chunks(s, n), k + 1) <= |s|
    ensures Chunks(s, n)[k] == s[Len(Chunks(s, n), k)..Len(Chunks(s, n), k + 1)]
    decreases |s|
  {
    var cs := Chunks(s, n);
    var m := SliceIndex(|s|, n);
    var rest := Chunks(SliceFrom(s, n), n);
    assert cs == [SliceTo(s, n)] + rest;
    LenCons(SliceTo(s, n), rest, k + 1);
    if k > 0 {
      LenCons(SliceTo(s, n), rest, k);
      ChunkSlice(SliceFrom(s, n), n, k - 1);
      assert cs[k] == rest[k - 1];
      var a, b := Len(rest, k - 1), Len(rest, k);
      assert s[m..][a..b] == s[m + a..m + b];
    }
  }

  /** The first `k` chunks hold no more than `s` and concatenate to the
      prefix of `s` of that length. */
  lemma {:induction false} ChunksPrefix<T>(s: seq<T>, n: nat, k: nat)
    requires n > 0 && k <= |Chunks(s, n)|
    ensures Len(Chunks(s, n), k) <= |s|
    ensures Flatten(Chunks(s, n)[..k]) == s[..Len(Chunks(s, n), k)]
  {
    var cs := Chunks(s, n);
    if k == 0 {
      assert cs[..0] == [];
    } else {
      ChunksPrefix(s, n, k - 1);
      ChunkSlice(s, n, k - 1);
      assert cs[..k] == cs[..k - 1] + [cs[k - 1]];
      FlattenAppend(cs[..k - 1], [cs[k - 1]]);
      assert Flatten([cs[k - 1]]) == cs[k - 1] + Flatten([]);
      var lo, hi := Len(cs, k - 1), Len(cs, k);
      assert s[..hi] == s[..lo] + s[lo..hi];
    }
  }
}
