/**
 * The partition `fillVisibleMetricsLazily` (static/app.js) walks: the visible
 * names in consecutive slices `batch.slice(i, i + 6)` for `i = 0, 6, 12, …`.
 */
module Batching {

  /** The metrics of at most this many names are requested at once. */
  const ChunkSize: nat := 6

  /** The slices `s[i..i+n]` for `i = 0, n, 2n, …`; the last one may be shorter. */
  function Chunks<T>(s: seq<T>, n: nat): seq<seq<T>>
    requires n > 0
    decreases |s|
  {
    if s == [] then []
    else if |s| <= n then [s]
    else [s[..n]] + Chunks(s[n..], n)
  }

  function Flatten<T>(chunks: seq<seq<T>>): seq<T> {
    if chunks == [] then [] else chunks[0] + Flatten(chunks[1..])
  }

  lemma FlattenAppend<T>(a: seq<seq<T>>, b: seq<seq<T>>)
    ensures Flatten(a + b) == Flatten(a) + Flatten(b)
  {
    if a == [] {
      assert a + b == b;
    } else {
      assert (a + b)[1..] == a[1..] + b;
      FlattenAppend(a[1..], b);
      calc {
        Flatten(a + b);
        a[0] + Flatten(a[1..] + b);
        a[0] + (Flatten(a[1..]) + Flatten(b));
        (a[0] + Flatten(a[1..])) + Flatten(b);
      }
    }
  }

  /** Every name is in exactly one chunk, in the original order: concatenating the chunks gives the input back. */
  lemma {:induction false} ChunksFlatten<T>(s: seq<T>, n: nat)
    requires n > 0
    ensures Flatten(Chunks(s, n)) == s
    decreases |s|
  {
    if s != [] && |s| > n {
      ChunksFlatten(s[n..], n);
      assert ([s[..n]] + Chunks(s[n..], n))[1..] == Chunks(s[n..], n);
      assert s == s[..n] + s[n..];
    } else if s != [] {
      assert Chunks(s, n) == [s];
      assert Flatten([s]) == s + Flatten<T>([]);
    }
  }

  /** Every chunk holds between 1 and `n` names, and all but the last hold exactly `n`. */
  lemma {:induction false} ChunkSizes<T>(s: seq<T>, n: nat)
    requires n > 0
    ensures forall k :: 0 <= k < |Chunks(s, n)| ==> 1 <= |Chunks(s, n)[k]| <= n
    ensures forall k :: 0 <= k < |Chunks(s, n)| - 1 ==> |Chunks(s, n)[k]| == n
    decreases |s|
  {
    if s != [] && |s| > n {
      ChunkSizes(s[n..], n);
      var rest := Chunks(s[n..], n);
      assert Chunks(s, n) == [s[..n]] + rest;
      assert forall k :: 1 <= k < |Chunks(s, n)| ==> Chunks(s, n)[k] == rest[k - 1];
    }
  }

  /** There are `ceil(|s| / 6)` chunks. */
  lemma {:induction false} ChunkCount<T>(s: seq<T>)
    ensures |Chunks(s, ChunkSize)| == (|s| + ChunkSize - 1) / ChunkSize
    decreases |s|
  {
    if s != [] && |s| > ChunkSize {
      ChunkCount(s[ChunkSize..]);
    }
  }

  /** Fifty visible names are fetched in nine rounds. */
  lemma FiftyNamesNineChunks<T>(s: seq<T>)
    requires |s| == 50
    ensures |Chunks(s, ChunkSize)| == 9
  {
    ChunkCount(s);
  }

  /** One step of the loop: the chunk at `i`, then the chunks of the rest. */
  lemma ChunksStep<T>(s: seq<T>, n: nat, i: nat)
    requires n > 0 && i < |s|
    ensures Chunks(s[i..], n) == [s[i..if i + n <= |s| then i + n else |s|]] + Chunks(s[if i + n <= |s| then i + n else |s|..], n)
  {
    var j := if i + n <= |s| then i + n else |s|;
    if |s[i..]| > n {
      assert s[i..][..n] == s[i..j];
      assert s[i..][n..] == s[j..];
    } else {
      assert s[i..] == s[i..j];
      assert s[j..] == [];
    }
  }

  /** The loop's bookkeeping: taking the chunk at `i` extends the rounds made so far towards all the chunks. */
  lemma ChunksAdvance<T>(s: seq<T>, rounds: seq<seq<T>>, i: nat)
    requires i < |s| && rounds + Chunks(s[i..], ChunkSize) == Chunks(s, ChunkSize)
    ensures var j := if i + ChunkSize <= |s| then i + ChunkSize else |s|;
            (rounds + [s[i..j]]) + Chunks(s[j..], ChunkSize) == Chunks(s, ChunkSize)
  {
    var j := if i + ChunkSize <= |s| then i + ChunkSize else |s|;
    ChunksStep(s, ChunkSize, i);
    assert (rounds + [s[i..j]]) + Chunks(s[j..], ChunkSize) == rounds + ([s[i..j]] + Chunks(s[j..], ChunkSize));
  }
}
