/** Both import scripts send their verses in slices of 500
    (scripts/import-bible-verses.js:53-56, scripts/import-to-supabase.js:65-69):
    `for (i = 0; i < n; i += 500) batch = verses.slice(i, i + 500)`. */
module Batching {
  import opened Text

  const BatchSize: nat := 500

  /** The slices `s[0..500]`, `s[500..1000]`, ..., the last one possibly shorter. */
  function Batches<T>(s: seq<T>): (r: seq<seq<T>>)
    ensures forall k :: 0 <= k < |r| ==> 0 < |r[k]| <= BatchSize
    decreases |s|
  {
    if s == [] then []
    else if |s| <= BatchSize then [s]
    else [s[..BatchSize]] + Batches(s[BatchSize..])
  }

  /** The slices laid end to end. */
  function Flatten<T>(ss: seq<seq<T>>): seq<T> {
    if ss == [] then [] else ss[0] + Flatten(ss[1..])
  }

  lemma {:induction false} FlattenAppend<T>(a: seq<seq<T>>, b: seq<seq<T>>)
    ensures Flatten(a + b) == Flatten(a) + Flatten(b)
  {
    if a == [] {
      assert a + b == b;
    } else {
      assert (a + b)[1..] == a[1..] + b;
      FlattenAppend(a[1..], b);
    }
  }

  /** Every verse is sent exactly once, in order. */
  lemma {:induction false} FlattenBatches<T>(s: seq<T>)
    ensures Flatten(Batches(s)) == s
    decreases |s|
  {
    if |s| > BatchSize {
      FlattenBatches(s[BatchSize..]);
      assert s == s[..BatchSize] + s[BatchSize..];
    }
  }

  /** The number of `insert` calls, or of `INSERT` statements: the length divided by 500,
      rounded up. */
  lemma {:induction false} BatchCount<T>(s: seq<T>)
    ensures |Batches(s)| == (|s| + BatchSize - 1) / BatchSize
    decreases |s|
  {
    if |s| > BatchSize {
      BatchCount(s[BatchSize..]);
    }
  }

  /** The `k`-th slice starts at `500 * k` and holds 500 verses, or what is left. */
  lemma {:induction false} BatchAt<T>(s: seq<T>, k: nat)
    requires k < |Batches(s)|
    ensures BatchSize * k < |s|
    ensures Batches(s)[k] == s[BatchSize * k..Min(BatchSize * k + BatchSize, |s|)]
    decreases k
  {
    if k > 0 {
      var rest := s[BatchSize..];
      assert Batches(s)[k] == Batches(rest)[k - 1];
      BatchAt(rest, k - 1);
      assert rest[BatchSize * (k - 1)..Min(BatchSize * (k - 1) + BatchSize, |rest|)]
          == s[BatchSize * k..Min(BatchSize * k + BatchSize, |s|)];
    }
  }

  /** Cutting at a multiple of 500 cuts the list of slices there. */
  lemma {:induction false} BatchesAppend<T>(a: seq<T>, b: seq<T>)
    requires |a| % BatchSize == 0
    ensures Batches(a + b) == Batches(a) + Batches(b)
    decreases |a|
  {
    if a == [] {
      assert a + b == b;
    } else {
      var rest := a[BatchSize..];
      assert (a + b)[..BatchSize] == a[..BatchSize];
      assert (a + b)[BatchSize..] == rest + b;
      BatchesAppend(rest, b);
      if b == [] && |a| == BatchSize {
        assert a + b == a;
      }
    }
  }

  /** A slice of at most 500 is sent in one go. */
  lemma {:induction false} OneBatch<T>(b: seq<T>)
    requires 0 < |b| <= BatchSize
    ensures Batches(b) == [b]
  {
  }
}
